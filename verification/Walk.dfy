/** Walking the chain of an honest publisher through its retention siblings. */
module Walk {
  import opened Basics
  import opened Signing
  import opened Timestamps
  import opened Documents
  import opened Verify
  import opened Build
  import opened Published
  import opened ChainLogs
  import opened ClientRuns
  import opened Protocol
  import opened Accepted

  // ----- a history of builds -----

  /** Publication `i` is the build of order `i`, on top of publication `i - 1`. */
  ghost predicate Posted(c: Platform, orders: seq<Order>, h: seq<bytes>, i: nat)
    requires i < |h| == |orders|
  {
    Builds(c, orders[i], h[i]) && orders[i].previous == if i == 0 then None else Some(h[i - 1])
  }

  ghost predicate Posts(c: Platform, orders: seq<Order>, h: seq<bytes>) {
    |orders| == |h| && forall i {:trigger Posted(c, orders, h, i)} | 0 <= i < |h| :: Posted(c, orders, h, i)
  }

  function Number(raw: bytes): u64 {
    if Typed(raw).Some? then Typed(raw).value.sequence else 0
  }

  function Numbers(h: seq<bytes>): (ns: seq<u64>)
    ensures |ns| == |h| && forall i | 0 <= i < |h| :: ns[i] == Number(h[i])
  {
    seq(|h|, i requires 0 <= i < |h| => Number(h[i]))
  }

  /** Publication `i` numbers itself after publication `i - 1`. */
  ghost predicate Numbered(ns: seq<u64>, i: nat)
    requires i < |ns|
  {
    ns[i] == if i == 0 then 1 else NextSequence(ns[i - 1])
  }

  lemma {:induction false} NumberedFromOne(ns: seq<u64>, i: nat)
    requires i < |ns| <= U64_LIMIT && forall k {:trigger Numbered(ns, k)} | 0 <= k < |ns| :: Numbered(ns, k)
    ensures ns[i] as int == i + 1
  {
    assert Numbered(ns, i);
    if i > 0 { NumberedFromOne(ns, i - 1); }
  }

  lemma ChainNumber(c: Platform, config: SnapshotConfig, previous: Option<bytes>, n: u64, link: Option<bytes>)
    requires Chain(c, config, previous) == Ok((n, link))
    ensures n == match previous case None => 1 case Some(p) => NextSequence(Number(p))
    ensures link == match previous case None => None case Some(p) => Some(Digest(c, p))
  {
  }

  lemma BuildNumbered(c: Platform, o: Order, raw: bytes) returns (n: u64)
    requires Builds(c, o, raw)
    ensures n == Number(raw) == match o.previous case None => 1 case Some(p) => NextSequence(Number(p))
    ensures Continues(c, raw, n as int, o.previous)
  {
    var s := BuiltReadsBack(c, o.config, o.previous, o.at, o.key, o.disk);
    n := s.sequence;
    ChainNumber(c, o.config, o.previous, n, s.previousDigest);
  }

  lemma PostedNumbered(c: Platform, orders: seq<Order>, h: seq<bytes>, ns: seq<u64>, i: nat)
    requires Posts(c, orders, h) && i < |h| && ns == Numbers(h)
    ensures Numbered(ns, i) && (ns[i] as int == i + 1 ==> Link(c, h, i))
  {
    assert Posted(c, orders, h, i);
    var n := BuildNumbered(c, orders[i], h[i]);
  }

  lemma LinkedByNumber(c: Platform, h: seq<bytes>, ns: seq<u64>)
    requires |ns| == |h| <= U64_LIMIT
    requires forall i {:trigger Numbered(ns, i)} | 0 <= i < |h| :: Numbered(ns, i)
    requires forall i {:trigger Link(c, h, i)} | 0 <= i < |h| :: ns[i] as int == i + 1 ==> Link(c, h, i)
    ensures Chained(c, h)
  {
    forall i {:trigger Link(c, h, i)} | 0 <= i < |h| ensures Link(c, h, i) { NumberedFromOne(ns, i); }
  }

  /** Every history of builds, each on the bytes before it, is a chain. */
  lemma PostsChained(c: Platform, orders: seq<Order>, h: seq<bytes>)
    requires Posts(c, orders, h) && |h| <= U64_LIMIT
    ensures Chained(c, h)
  {
    var ns := Numbers(h);
    forall i {:trigger Numbered(ns, i)} | 0 <= i < |h| ensures Numbered(ns, i) {
      PostedNumbered(c, orders, h, ns, i);
    }
    forall i {:trigger Link(c, h, i)} | 0 <= i < |h| ensures ns[i] as int == i + 1 ==> Link(c, h, i) {
      PostedNumbered(c, orders, h, ns, i);
    }
    LinkedByNumber(c, h, ns);
  }

  lemma PostsExtend(c: Platform, orders: seq<Order>, h: seq<bytes>, o: Order, raw: bytes)
    requires Posts(c, orders, h) && Builds(c, o, raw) && o.previous == Latest(h)
    ensures Posts(c, orders + [o], h + [raw])
  {
    var os, g := orders + [o], h + [raw];
    forall i {:trigger Posted(c, os, g, i)} | 0 <= i < |g| ensures Posted(c, os, g, i) {
      PostedNext(c, orders, h, o, raw, i);
    }
  }

  lemma PostedNext(c: Platform, orders: seq<Order>, h: seq<bytes>, o: Order, raw: bytes, i: nat)
    requires Posts(c, orders, h) && Builds(c, o, raw) && o.previous == Latest(h) && i <= |h|
    ensures Posted(c, orders + [o], h + [raw], i)
  {
    if i < |h| {
      assert Posted(c, orders, h, i);
      PostedPrefix(c, orders, h, [o], [raw], i);
    } else {
      PostedLast(c, orders, h, o, raw);
    }
  }

  lemma PostedLast(c: Platform, orders: seq<Order>, h: seq<bytes>, o: Order, raw: bytes)
    requires |orders| == |h| && Builds(c, o, raw) && o.previous == Latest(h)
    ensures Posted(c, orders + [o], h + [raw], |h|)
  {
    SamePosted(c, o, (orders + [o])[|h|], raw, (h + [raw])[|h|]);
  }

  lemma PostedPrefix(c: Platform, orders: seq<Order>, h: seq<bytes>, os: seq<Order>, tail: seq<bytes>, i: nat)
    requires |orders| == |h| && |os| == |tail| && i < |h| && Posted(c, orders, h, i)
    ensures Posted(c, orders + os, h + tail, i)
  {
    SamePosted(c, orders[i], (orders + os)[i], h[i], (h + tail)[i]);
  }

  lemma SamePosted(c: Platform, o: Order, o': Order, raw: bytes, raw': bytes)
    requires Builds(c, o, raw) && o == o' && raw == raw'
    ensures Builds(c, o', raw')
  {
  }

  lemma LastNumber(c: Platform, orders: seq<Order>, h: seq<bytes>)
    requires Posts(c, orders, h) && |h| <= U64_LIMIT && h != []
    ensures Number(h[|h| - 1]) as int == |h|
  {
    PostsChained(c, orders, h);
    assert Link(c, h, |h| - 1);
  }

  /** The next build on top of a history of n builds has sequence n + 1. */
  lemma NextNumber(c: Platform, orders: seq<Order>, h: seq<bytes>, o: Order, raw: bytes)
    requires Posts(c, orders, h) && |h| < U64_LIMIT && Builds(c, o, raw) && o.previous == Latest(h)
    ensures Number(raw) as int == |h| + 1
  {
    if h != [] { LastNumber(c, orders, h); }
    var n := BuildNumbered(c, o, raw);
  }

  // ----- refreshing from it -----

  /** Within the verifier's bounds: bytes, entries, and no component listed twice. */
  ghost predicate Bounded(c: Platform, o: Order, raw: bytes) {
    |raw| <= MAX_SNAPSHOT_BYTES && |o.config.entries| <= MAX_ENTRIES && DistinctDecoded(Listed(c, o))
  }

  /** One publisher: every order is for one catalog, which the manifest declares. */
  ghost predicate OneCatalog(c: Platform, m: VerifiedManifest, orders: seq<Order>) {
    forall i {:trigger orders[i]} | 0 <= i < |orders| ::
      Declares(c, m, orders[i]) && orders[i].config.catalogId == orders[0].config.catalogId
  }

  /** The client retains publication `k` in full. */
  ghost predicate Retains(c: Platform, orders: seq<Order>, h: seq<bytes>, r: Retained, k: nat)
    requires |orders| == |h|
  {
    Holds(c, h, r, k) && r.providerId == orders[k].config.providerId && r.catalogId == orders[k].config.catalogId
  }

  ghost predicate RetainsIf(c: Platform, orders: seq<Order>, h: seq<bytes>, retained: Option<Retained>, held: Option<nat>)
    requires |orders| == |h|
  {
    match held
    case None => retained.None?
    case Some(k) => retained.Some? && Retains(c, orders, h, retained.value, k)
  }

  /**
   A client of an honest publisher that is served any publication not older than the one it retains, while
   that publication is unexpired and within bounds, accepts it, with exactly the outcome owed.
   */
  lemma ServedAccepted(c: Platform, orders: seq<Order>, h: seq<bytes>, m: VerifiedManifest, retained: Option<Retained>,
                       held: Option<nat>, now: Instant, n: nat) returns (v: VerifiedSnapshot)
    requires Posts(c, orders, h) && |h| <= U64_LIMIT && CollisionFree(c, h) && OneCatalog(c, m, orders) && n < |h|
    requires RetainsIf(c, orders, h, retained, held) && (held.Some? ==> held.value <= n)
    requires InWindow(orders[n], now) && Bounded(c, orders[n], h[n])
    ensures SnapshotVerdict(c, h[n], m, retained, now) == Ok(v)
    ensures v.outcome == Owed(held, n)
    ensures Retains(c, orders, h, AfterAcceptance(retained, v), n)
  {
    PostsChained(c, orders, h);
    HonestComparison(c, h, n, retained, held);
    assert Posted(c, orders, h, n) && Link(c, h, n);
    SameCatalogAt(c, orders, h, m, retained, held, n);
    BuiltAccepted(c, orders[n], h[n], m, retained, now);
    v := SnapshotVerdict(c, h[n], m, retained, now).value;
    AcceptedRetains(c, orders, h, n, retained, v);
  }

  lemma AcceptedRetains(c: Platform, orders: seq<Order>, h: seq<bytes>, n: nat, retained: Option<Retained>,
                        v: VerifiedSnapshot)
    requires |orders| == |h| && n < |h| && Posted(c, orders, h, n) && Link(c, h, n)
    requires Typed(h[n]) == Some(v.snapshot) && v.digest == Digest(c, h[n])
    ensures Retains(c, orders, h, AfterAcceptance(retained, v), n)
  {
    BuiltIdentity(c, orders[n], h[n], v.snapshot);
  }

  lemma SameCatalogAt(c: Platform, orders: seq<Order>, h: seq<bytes>, m: VerifiedManifest, retained: Option<Retained>,
                      held: Option<nat>, n: nat)
    requires |orders| == |h| && OneCatalog(c, m, orders) && n < |h| && RetainsIf(c, orders, h, retained, held)
    ensures SameCatalog(retained, orders[n]) && Declares(c, m, orders[n])
  {
    if held.Some? {
      assert Declares(c, m, orders[held.value]);
    }
  }

  lemma BuiltIdentity(c: Platform, o: Order, raw: bytes, s: CatalogSnapshot)
    requires Builds(c, o, raw) && Typed(raw) == Some(s)
    ensures s.providerId == o.config.providerId && s.catalogId == o.config.catalogId
  {
    var t := BuiltReadsBack(c, o.config, o.previous, o.at, o.key, o.disk);
  }

  /** A client that retains from the bytes of publication `k` retains that publication. */
  lemma RetainedFromBytes(c: Platform, orders: seq<Order>, h: seq<bytes>, k: nat, policy: Option<bytes>)
    returns (r: Retained)
    requires Posts(c, orders, h) && |h| <= U64_LIMIT && k < |h|
    ensures FromSnapshotBytes(c, h[k], policy) == Some(r) && Retains(c, orders, h, r, k)
  {
    PostsChained(c, orders, h);
    assert Link(c, h, k) && Posted(c, orders, h, k);
    var s := Typed(h[k]).value;
    r := Retained(s.providerId, s.catalogId, s.sequence, Digest(c, h[k]), policy);
    BuiltIdentity(c, orders[k], h[k], s);
  }

  // ----- the walk -----

  /** Fetches publication `n` while it is unexpired and within bounds. */
  ghost predicate Fetches(c: Platform, orders: seq<Order>, h: seq<bytes>, m: VerifiedManifest, f: Fetch, n: nat)
    requires n < |h| == |orders|
  {
    f.raw == h[n] && f.manifest == m && InWindow(orders[n], f.now) && Bounded(c, orders[n], h[n])
  }

  /** The fetches walk the publications after `k`, one by one up to `n`, each at its own clock. */
  ghost predicate Walks(c: Platform, orders: seq<Order>, h: seq<bytes>, m: VerifiedManifest, k: nat, n: nat,
                        fetches: seq<Fetch>)
    requires n < |h| == |orders|
    decreases |fetches|
  {
    if fetches == [] then n == k
    else
      var l := |fetches| - 1;
      n > 0 && Fetches(c, orders, h, m, fetches[l], n) && Walks(c, orders, h, m, k, n - 1, fetches[..l])
  }

  /** The acceptances are of the publications up to `n`, in order, each as the successor of the one before. */
  ghost predicate Successors(h: seq<bytes>, n: nat, log: seq<Acceptance>)
    requires n < |h|
    decreases |log|
  {
    log == [] ||
    var a := log[|log| - 1];
    n > 0 && a.raw == h[n] && a.v.outcome == Successor && Successors(h, n - 1, log[..|log| - 1])
  }

  lemma NextAccepted(c: Platform, orders: seq<Order>, h: seq<bytes>, m: VerifiedManifest, state: Option<Retained>,
                     k: nat, f: Fetch) returns (v: VerifiedSnapshot)
    requires Posts(c, orders, h) && |h| <= U64_LIMIT && CollisionFree(c, h) && OneCatalog(c, m, orders)
    requires k + 1 < |h| && state.Some? && Retains(c, orders, h, state.value, k) && Fetches(c, orders, h, m, f, k + 1)
    ensures SnapshotVerdict(c, f.raw, f.manifest, state, f.now) == Ok(v) && v.outcome == Successor
    ensures Retains(c, orders, h, AfterAcceptance(state, v), k + 1)
  {
    v := ServedAccepted(c, orders, h, m, state, Some(k), f.now, k + 1);
  }

  /** One more fetch of the walk: accepted as the successor of what was retained. */
  lemma WalkStep(c: Platform, orders: seq<Order>, h: seq<bytes>, m: VerifiedManifest, start: Option<Retained>,
                 before: seq<Fetch>, f: Fetch, n: nat, state: Option<Retained>, log: seq<Acceptance>)
    returns (next: Option<Retained>, a: Acceptance)
    requires Posts(c, orders, h) && |h| <= U64_LIMIT && CollisionFree(c, h) && OneCatalog(c, m, orders)
    requires n + 1 < |h| && state.Some? && Retains(c, orders, h, state.value, n) && Fetches(c, orders, h, m, f, n + 1)
    requires RunWith(Verifying(c), start, before) == (state, log)
    ensures RunWith(Verifying(c), start, before + [f]) == (next, log + [a])
    ensures next.Some? && Retains(c, orders, h, next.value, n + 1) && a.raw == h[n + 1] && a.v.outcome == Successor
  {
    var v := NextAccepted(c, orders, h, m, state, n, f);
    RunOneMore(Verifying(c), start, before, f, state, log);
    next, a := Some(AfterAcceptance(state, v)), Acceptance(f.raw, v);
  }

  /**
   The chain can be walked. A client that retains any publication k, and fetches the publications after it
   one by one while each is unexpired, accepts every one of them as the successor, and ends retaining the
   last one fetched, publication n.
   */
  lemma {:induction false} ChainWalk(c: Platform, orders: seq<Order>, h: seq<bytes>, m: VerifiedManifest, r: Retained,
                                     k: nat, n: nat, fetches: seq<Fetch>)
    returns (state: Option<Retained>, log: seq<Acceptance>)
    requires Posts(c, orders, h) && |h| <= U64_LIMIT && CollisionFree(c, h) && OneCatalog(c, m, orders)
    requires n < |h| && Walks(c, orders, h, m, k, n, fetches) && k < |h| && Retains(c, orders, h, r, k)
    ensures Run(c, Some(r), fetches) == (state, log)
    ensures state.Some? && Retains(c, orders, h, state.value, n)
    ensures |log| == |fetches| && Successors(h, n, log)
    decreases |fetches|
  {
    if fetches == [] {
      state, log := Some(r), [];
    } else {
      var before, f := fetches[..|fetches| - 1], fetches[|fetches| - 1];
      assert fetches == before + [f];
      state, log := ChainWalk(c, orders, h, m, r, k, n - 1, before);
      var a;
      state, a := WalkStep(c, orders, h, m, Some(r), before, f, n - 1, state, log);
      assert (log + [a])[..|log|] == log;
      log := log + [a];
    }
  }
}
