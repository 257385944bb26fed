/** The publisher's command, stopped anywhere, and a client that fetches the latest file, in any order. */
module Release {
  import opened Basics
  import opened Signing
  import opened Timestamps
  import opened Documents
  import opened Verify
  import opened Protocol
  import opened Accepted
  import opened Files
  import opened Walk
  import opened Publisher

  datatype Move =
    | Ran(cmd: Command, stop: nat)
    | Fetched(manifest: VerifiedManifest, now: Instant)

  // The files, and the system they serve: what the latest file has held, and the client's attempts on it. The orders
  // say what each publication was built from.
  datatype Scene = Scene(files: FileMap, sys: System, orders: seq<Order>)

  const EMPTY := Scene(map[], INITIAL, [])

  ghost function Next(c: Platform, out: Path, s: Scene, e: Move): Scene {
    match e
    case Ran(cmd, stop) =>
      Scene(RunCommand(c, s.files, cmd, stop).0,
            s.sys.(history := Extended(c, s.files, out, cmd, stop, s.sys.history)),
            ExtendedOrders(c, s.files, out, cmd, stop, s.sys.history, s.orders))
    case Fetched(manifest, now) =>
      if out !in s.files || s.sys.history == [] then s
      else
        var verdict := SnapshotVerdict(c, s.files[out], manifest, s.sys.retained, now);
        s.(sys := Attempted(s.sys, |s.sys.history| - 1, verdict))
  }

  ghost function Played(c: Platform, out: Path, moves: seq<Move>): Scene {
    if moves == [] then EMPTY
    else Next(c, out, Played(c, out, moves[..|moves| - 1]), moves[|moves| - 1])
  }

  /** Commands for this latest file are for the one catalog and on top of it; commands for others are free. */
  ghost predicate Fairly(c: Platform, out: Path, id: bytes, moves: seq<Move>) {
    moves == [] ||
    var n := |moves| - 1;
    && Fairly(c, out, id, moves[..n])
    && (moves[n].Ran? ==> Orderly(Played(c, out, moves[..n]).files, out, id, moves[n].cmd))
  }

  ghost predicate Sound(c: Platform, out: Path, id: bytes, s: Scene) {
    Posts(c, s.orders, s.sys.history) && Serves(s.files, out, id, s.sys.history) && Invariant(c, s.sys)
  }

  lemma RanSound(c: Platform, out: Path, id: bytes, s: Scene, cmd: Command, stop: nat)
    requires Sound(c, out, id, s) && LatestName(out.name) && Orderly(s.files, out, id, cmd)
    requires |s.sys.history| < U64_LIMIT
    ensures Sound(c, out, id, Next(c, out, s, Ran(cmd, stop)))
  {
    var h := s.sys.history;
    OrderlyExtends(c, s.files, out, id, cmd, stop, s.orders, h);
    PostsChained(c, ExtendedOrders(c, s.files, out, cmd, stop, h, s.orders), Extended(c, s.files, out, cmd, stop, h));
    if Publishes(c, s.files, out, cmd, stop) {
      HoldsPrefix(c, h, BuiltBy(c, s.files, cmd).value.raw, s.sys.retained, s.sys.held);
    }
  }

  lemma FetchedSystem(c: Platform, out: Path, id: bytes, s: Scene, m: VerifiedManifest, now: Instant)
    requires Serves(s.files, out, id, s.sys.history) && Invariant(c, s.sys)
    requires |s.sys.history| < U64_LIMIT && CollisionFree(c, s.sys.history)
    ensures var next := Next(c, out, s, Fetched(m, now));
            Invariant(c, next.sys) && next.sys.history == s.sys.history && next.files == s.files && next.orders == s.orders
  {
    var n := |s.sys.history| - 1;
    if n >= 0 { AttemptInvariant(c, s.sys, m, now, n, SnapshotVerdict(c, s.files[out], m, s.sys.retained, now)); }
  }

  lemma FetchedSound(c: Platform, out: Path, id: bytes, s: Scene, m: VerifiedManifest, now: Instant)
    requires Sound(c, out, id, s) && |s.sys.history| < U64_LIMIT && CollisionFree(c, s.sys.history)
    ensures Sound(c, out, id, Next(c, out, s, Fetched(m, now)))
  {
    FetchedSystem(c, out, id, s, m, now);
  }

  lemma HistoryStep(c: Platform, out: Path, s: Scene, e: Move)
    ensures s.sys.history <= Next(c, out, s, e).sys.history
    ensures |Next(c, out, s, e).sys.history| <= |s.sys.history| + 1
  {
    if e.Ran? { ExtendedGrows(c, s.files, out, e.cmd, e.stop, s.sys.history); }
  }

  lemma {:induction false} HistoryBound(c: Platform, out: Path, moves: seq<Move>)
    ensures |Played(c, out, moves).sys.history| <= |moves|
  {
    if moves != [] {
      var n := |moves| - 1;
      HistoryBound(c, out, moves[..n]);
      HistoryStep(c, out, Played(c, out, moves[..n]), moves[n]);
    }
  }

  /** Before the last move the history was shorter and as free of collisions. */
  lemma BeforeLast(c: Platform, out: Path, moves: seq<Move>)
    requires moves != [] && CollisionFree(c, Played(c, out, moves).sys.history) && |moves| <= U64_LIMIT
    ensures var h := Played(c, out, moves[..|moves| - 1]).sys.history; CollisionFree(c, h) && |h| < U64_LIMIT
  {
    var n := |moves| - 1;
    HistoryStep(c, out, Played(c, out, moves[..n]), moves[n]);
    HistoryBound(c, out, moves[..n]);
    PrefixCollisionFree(c, Played(c, out, moves[..n]).sys.history, Played(c, out, moves).sys.history);
  }

  lemma {:induction false} PlayedSound(c: Platform, out: Path, id: bytes, moves: seq<Move>)
    requires LatestName(out.name) && Fairly(c, out, id, moves) && |moves| <= U64_LIMIT
    requires CollisionFree(c, Played(c, out, moves).sys.history)
    ensures Sound(c, out, id, Played(c, out, moves))
  {
    if moves != [] {
      var n := |moves| - 1;
      BeforeLast(c, out, moves);
      PlayedSound(c, out, id, moves[..n]);
      match moves[n]
      case Ran(cmd, stop) => RanSound(c, out, id, Played(c, out, moves[..n]), cmd, stop);
      case Fetched(m, now) => FetchedSound(c, out, id, Played(c, out, moves[..n]), m, now);
    }
  }

  /**
   Crashes of the publisher never make it look dishonest. For every interleaving of commands, each stopped
   anywhere between its writes and started again or not, with fetches of the latest file under any manifests and
   at any clocks: no fetch ends in a rollback, a fork or an inconsistent jump, and every accepted one reports
   exactly the outcome owed, with the exact number of publications it missed. Commands for other latest files, in
   the same directory or elsewhere, may come between.
   */
  lemma StoppedPublisherNeverAccused(c: Platform, out: Path, id: bytes, moves: seq<Move>, k: nat)
    requires LatestName(out.name) && Fairly(c, out, id, moves) && |moves| <= U64_LIMIT
    requires CollisionFree(c, Played(c, out, moves).sys.history) && k < |Played(c, out, moves).sys.attempts|
    ensures Fair(Played(c, out, moves).sys.attempts[k])
  {
    PlayedSound(c, out, id, moves);
  }

  // ----- when every fetch is accepted -----

  /** The manifest declares the one catalog, and the publication served is unexpired and within bounds. */
  ghost predicate Timely(c: Platform, s: Scene, m: VerifiedManifest, now: Instant) {
    |s.orders| == |s.sys.history| > 0 ==>
      var n := |s.orders| - 1;
      OneCatalog(c, m, s.orders) && InWindow(s.orders[n], now) && Bounded(c, s.orders[n], s.sys.history[n])
  }

  ghost predicate AllTimely(c: Platform, out: Path, moves: seq<Move>) {
    moves == [] ||
    var n := |moves| - 1;
    && AllTimely(c, out, moves[..n])
    && (moves[n].Fetched? ==> Timely(c, Played(c, out, moves[..n]), moves[n].manifest, moves[n].now))
  }

  /** Accepted, with the outcome owed. */
  ghost predicate Accepts(a: Attempt) {
    Fair(a) && a.verdict.Ok?
  }

  ghost predicate AllAccepted(attempts: seq<Attempt>) {
    forall i | 0 <= i < |attempts| :: Accepts(attempts[i])
  }

  /** What the client holds is what it was last served, if anything. */
  ghost predicate HoldsLast(sys: System) {
    sys.held == if sys.attempts == [] then None else Some(sys.attempts[|sys.attempts| - 1].served)
  }

  /** The client has accepted everything it was served, and retains in full what it was last served. */
  ghost predicate Following(c: Platform, s: Scene) {
    && |s.orders| == |s.sys.history| && RetainsIf(c, s.orders, s.sys.history, s.sys.retained, s.sys.held)
    && AllAccepted(s.sys.attempts) && HoldsLast(s.sys)
  }

  lemma RetainsPrefix(c: Platform, orders: seq<Order>, h: seq<bytes>, o: Order, raw: bytes, retained: Option<Retained>,
                      held: Option<nat>)
    requires |orders| == |h| && RetainsIf(c, orders, h, retained, held)
    ensures RetainsIf(c, orders + [o], h + [raw], retained, held)
  {
    if held.Some? {
      var k := held.value;
      assert (orders + [o])[k] == orders[k] && (h + [raw])[k] == h[k];
    }
  }

  lemma FollowingGrown(c: Platform, s: Scene, files: FileMap, o: Order, raw: bytes)
    requires Following(c, s)
    ensures Following(c, Scene(files, s.sys.(history := s.sys.history + [raw]), s.orders + [o]))
  {
    RetainsPrefix(c, s.orders, s.sys.history, o, raw, s.sys.retained, s.sys.held);
  }

  lemma RanScene(c: Platform, out: Path, s: Scene, cmd: Command, stop: nat)
    ensures var files := RunCommand(c, s.files, cmd, stop).0;
            Next(c, out, s, Ran(cmd, stop)) ==
            if !Publishes(c, s.files, out, cmd, stop) then s.(files := files)
            else
              Scene(files, s.sys.(history := s.sys.history + [BuiltBy(c, s.files, cmd).value.raw]),
                    s.orders + [Order(cmd.config, Latest(s.sys.history), cmd.at, cmd.key, cmd.disk)])
  {
  }

  lemma RanFollowing(c: Platform, out: Path, s: Scene, cmd: Command, stop: nat)
    requires Following(c, s)
    ensures Following(c, Next(c, out, s, Ran(cmd, stop)))
  {
    RanScene(c, out, s, cmd, stop);
    if Publishes(c, s.files, out, cmd, stop) {
      FollowingGrown(c, s, RunCommand(c, s.files, cmd, stop).0,
                     Order(cmd.config, Latest(s.sys.history), cmd.at, cmd.key, cmd.disk), BuiltBy(c, s.files, cmd).value.raw);
    }
  }

  lemma AcceptedNext(sys: System, n: nat, v: VerifiedSnapshot)
    requires AllAccepted(sys.attempts) && (sys.held.Some? ==> sys.held.value <= n) && n < U64_LIMIT
    requires v.outcome == Owed(sys.held, n)
    ensures var next := Attempted(sys, n, Ok(v));
            && next.retained == Some(AfterAcceptance(sys.retained, v)) && next.held == Some(n)
            && next.history == sys.history && AllAccepted(next.attempts) && HoldsLast(next)
  {
    assert Accepts(Attempt(sys.held, n, Ok(v)));
  }

  lemma AttemptFollowing(c: Platform, orders: seq<Order>, sys: System, m: VerifiedManifest, now: Instant, n: nat,
                         verdict: Result<VerifiedSnapshot, Error>)
    requires Posts(c, orders, sys.history) && |sys.history| <= U64_LIMIT && CollisionFree(c, sys.history)
    requires RetainsIf(c, orders, sys.history, sys.retained, sys.held) && AllAccepted(sys.attempts)
    requires n + 1 == |sys.history| && OneCatalog(c, m, orders)
    requires InWindow(orders[n], now) && Bounded(c, orders[n], sys.history[n])
    requires verdict == SnapshotVerdict(c, sys.history[n], m, sys.retained, now)
    ensures var next := Attempted(sys, n, verdict);
            && RetainsIf(c, orders, sys.history, next.retained, next.held) && next.history == sys.history
            && AllAccepted(next.attempts) && HoldsLast(next)
  {
    var v := ServedAccepted(c, orders, sys.history, m, sys.retained, sys.held, now, n);
    AcceptedNext(sys, n, v);
  }

  lemma FetchedFollowing(c: Platform, out: Path, id: bytes, s: Scene, m: VerifiedManifest, now: Instant)
    requires Posts(c, s.orders, s.sys.history) && Serves(s.files, out, id, s.sys.history) && Following(c, s)
    requires |s.sys.history| < U64_LIMIT && CollisionFree(c, s.sys.history) && Timely(c, s, m, now)
    ensures Following(c, Next(c, out, s, Fetched(m, now)))
  {
    var n := |s.sys.history| - 1;
    if n >= 0 {
      AttemptFollowing(c, s.orders, s.sys, m, now, n, SnapshotVerdict(c, s.files[out], m, s.sys.retained, now));
    }
  }

  lemma {:induction false} PlayedFollowing(c: Platform, out: Path, id: bytes, moves: seq<Move>)
    requires LatestName(out.name) && Fairly(c, out, id, moves) && AllTimely(c, out, moves) && |moves| <= U64_LIMIT
    requires CollisionFree(c, Played(c, out, moves).sys.history)
    ensures Following(c, Played(c, out, moves))
  {
    if moves != [] {
      var n := |moves| - 1;
      BeforeLast(c, out, moves);
      PlayedFollowing(c, out, id, moves[..n]);
      PlayedSound(c, out, id, moves[..n]);
      match moves[n]
      case Ran(cmd, stop) => RanFollowing(c, out, Played(c, out, moves[..n]), cmd, stop);
      case Fetched(m, now) => FetchedFollowing(c, out, id, Played(c, out, moves[..n]), m, now);
    }
  }

  /**
   Progress under crashes. For every such interleaving in which each fetch is under a manifest that declares the one
   catalog, while the publication served is unexpired and within bounds: every fetch is accepted, with exactly the
   outcome owed, and the client ends retaining the publication that it was last served.
   */
  lemma EveryFetchAccepted(c: Platform, out: Path, id: bytes, moves: seq<Move>, k: nat)
    requires LatestName(out.name) && Fairly(c, out, id, moves) && AllTimely(c, out, moves) && |moves| <= U64_LIMIT
    requires CollisionFree(c, Played(c, out, moves).sys.history) && k < |Played(c, out, moves).sys.attempts|
    ensures var s := Played(c, out, moves);
            && s.sys.attempts[k].verdict.Ok? && Fair(s.sys.attempts[k]) && HoldsLast(s.sys)
            && |s.orders| == |s.sys.history| && RetainsIf(c, s.orders, s.sys.history, s.sys.retained, s.sys.held)
  {
    PlayedFollowing(c, out, id, moves);
    assert Accepts(Played(c, out, moves).sys.attempts[k]);
  }
}
