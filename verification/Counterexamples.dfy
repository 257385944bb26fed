/** Inputs at which the builder and the command do not do what is expected of them. */
module Counterexamples {
  import opened Basics
  import Text
  import Json
  import opened Canonical
  import opened Signing
  import opened Documents
  import opened Verify
  import opened Build
  import opened Published
  import opened Accepted
  import opened Files
  import opened Keeping
  import opened Publisher

  const CATALOG: bytes := "a"
  const PROVIDER: bytes := COMPONENT_PREFIX + "a"

  /** A valid config without entries. */
  function Plain(c: Platform): SnapshotConfig {
    SnapshotConfig(CATALOG, PROVIDER, Digest(c, []), 1, [])
  }

  lemma TokensText()
    ensures ValidCatalogId(CATALOG) && ValidComponentId(PROVIDER)
    ensures Text.ValidUtf8(CATALOG) && Text.ValidUtf8(PROVIDER) && Text.ValidUtf8([])
  {
    assert PROVIDER[|COMPONENT_PREFIX|..] == "a";
    Text.AsciiIsUtf8(CATALOG);
    Text.AsciiIsUtf8([]);
    TokenText(COMPONENT_PREFIX, "a");
  }

  lemma PlainValid(c: Platform)
    ensures ValidConfig(Plain(c)) && GoodConfig(Plain(c))
  {
    TokensText();
    DigestValid(c, []);
  }

  lemma PlainBuilds(c: Platform, previous: Option<bytes>, key: bytes, disk: Disk)
    requires Chain(c, Plain(c), previous).Ok?
    ensures SnapshotFor(c, Plain(c), previous, 0, key, disk).Ok?
  {
    PlainValid(c);
    BuildSucceeds(c, Plain(c), previous, 0, key, disk);
  }

  // ----- the ends of the sequence numbers -----

  /** A snapshot of the catalog with any sequence, which the builder accepts as `--previous`. */
  function Numbered(c: Platform, n: u64): CatalogSnapshot {
    CatalogSnapshot(1, PROFILE, CATALOG, PROVIDER, n, None, Digest(c, []), [], [], [], None)
  }

  function NumberedBytes(c: Platform, n: u64): bytes {
    Json.Print(EncodeSnapshot(Numbered(c, n)))
  }

  lemma NumberedReads(c: Platform, n: u64)
    ensures StrictRead(NumberedBytes(c, n)).Some? && Typed(NumberedBytes(c, n)) == Some(Numbered(c, n))
  {
    NumberedText(c, n);
    EncodedReads(Numbered(c, n));
  }

  lemma NumberedText(c: Platform, n: u64)
    ensures SnapshotText(Numbered(c, n))
  {
    TokensText();
    ProfileText();
    DigestText(c, []);
  }

  lemma EncodedReads(s: CatalogSnapshot)
    requires SnapshotText(s)
    ensures StrictRead(Json.Print(EncodeSnapshot(s))).Some? && Typed(Json.Print(EncodeSnapshot(s))) == Some(s)
  {
    SnapshotRoundTrip(s);
    PrintedStrict(EncodeSnapshot(s));
  }

  lemma NumberedChain(c: Platform, n: u64)
    ensures Chain(c, Plain(c), Some(NumberedBytes(c, n))).Ok?
    ensures Chain(c, Plain(c), Some(NumberedBytes(c, n))).value.0 == NextSequence(n)
  {
    NumberedReads(c, n);
    ReadsChain(c, Plain(c), NumberedBytes(c, n), Numbered(c, n));
  }

  lemma ReadsChain(c: Platform, config: SnapshotConfig, raw: bytes, s: CatalogSnapshot)
    requires StrictRead(raw).Some? && Typed(raw) == Some(s) && s.catalogId == config.catalogId
    ensures Chain(c, config, Some(raw)) == Ok((NextSequence(s.sequence), Some(Digest(c, raw))))
  {
  }

  lemma ShapelessRefused(c: Platform, raw: bytes, m: VerifiedManifest, retained: Option<Retained>, now: int)
    requires Typed(raw).Some? && !ChainShape(Typed(raw).value)
    ensures SnapshotVerdict(c, raw, m, retained, now).Err?
  {
    if SnapshotVerdict(c, raw, m, retained, now).Ok? {
      VerdictBounds(c, raw, m, retained, now);
      var s := HeadReads(c, raw, m);
      AdmittedContinuable(s, Digest(c, raw), m, retained, now);
    }
  }

  lemma HeadReads(c: Platform, raw: bytes, m: VerifiedManifest) returns (s: CatalogSnapshot)
    requires SnapshotHead(c, raw, m).Ok?
    ensures SnapshotHead(c, raw, m) == Ok(s) && Typed(raw) == Some(s)
  {
    s := SnapshotHead(c, raw, m).value;
  }

  /**
   Built on a snapshot of the last 64-bit sequence, a snapshot gets sequence 0; built on one of the reserved
   sequence 0, it gets sequence 1 with a previous digest. The builder succeeds, and every verifier refuses what
   it built. `BuiltChainShape` says that these are the only two such sequences.
   */
  lemma UnchainableBuild(c: Platform, n: u64, key: bytes, disk: Disk, m: VerifiedManifest, retained: Option<Retained>,
                         now: int)
    requires n == 0 || n == 0xFFFF_FFFF_FFFF_FFFF
    ensures var built := SnapshotFor(c, Plain(c), Some(NumberedBytes(c, n)), 0, key, disk);
            && built.Ok? && built.value.sequence == (if n == 0 then 1 else 0)
            && SnapshotVerdict(c, built.value.raw, m, retained, now).Err?
  {
    var previous := Some(NumberedBytes(c, n));
    NumberedChain(c, n);
    NumberedReads(c, n);
    PlainBuilds(c, previous, key, disk);
    PlainValid(c);
    var b := SnapshotFor(c, Plain(c), previous, 0, key, disk).value;
    SnapshotNumber(c, Plain(c), previous, 0, key, disk, b);
    BuiltChainShape(c, Plain(c), previous, 0, key, disk);
    ShapelessRefused(c, b.raw, m, retained, now);
  }

  // ----- an output with the name of a published file -----

  const LATEST: Path := Path([], "latest.json")

  lemma LatestIsLatest()
    ensures LatestName(LATEST.name)
  {
    var name := LATEST.name;
    assert name[|name| - 6] == 't';
    forall id, n: nat {:trigger SiblingName(id, n)} ensures name != SiblingName(id, n) { SiblingDigit(id, n); }
  }

  lemma SiblingDigit(id: bytes, n: nat)
    ensures var name := SiblingName(id, n); |name| >= 6 && Text.IsDigit(name[|name| - 6])
  {
    var d := Text.Decimal(n);
    assert SiblingName(id, n)[|id| + |d|] == d[|d| - 1] && d[|d| - 1] in d;
  }

  /** The first run publishes sequence 1; the second builds on it, with any output. */
  function First(c: Platform, key: bytes, disk: Disk): Execution {
    Execution(Command(Plain(c), None, 0, key, disk, LATEST), 4)
  }

  function Second(c: Platform, key: bytes, disk: Disk, out: Path): Execution {
    Execution(Command(Plain(c), Some(LATEST), 0, key, disk, out), 4)
  }

  lemma Completes(files: FileMap, out: Path, id: bytes, n: nat, raw: bytes, sig: bytes)
    requires Sibling(out.dir, id, n) !in files && SigPath(Sibling(out.dir, id, n)) !in files
    ensures Perform(files, Writes(out, id, n, raw, sig), 4).1 && Reached(files, Writes(out, id, n, raw, sig), 4)
  {
    var ws := Writes(out, id, n, raw, sig);
    SigIsNoSibling(Sibling(out.dir, id, n), out.dir, id, n);
    assert Perform(files, ws, 0) == (files, true);
    assert Perform(files, ws, 1) == (Put(files, ws[0]), true);
    assert Perform(files, ws, 2) == (Put(Put(files, ws[0]), ws[1]), true);
    assert Perform(files, ws, 3) == (Put(Put(Put(files, ws[0]), ws[1]), ws[2]), true);
  }

  lemma FreshRun(out: Path, id: bytes, raw: bytes, sig: bytes)
    requires LatestName(out.name)
    ensures var files := Perform(map[], Writes(out, id, 1, raw, sig), 4).0;
            && Stored(files, Sibling(out.dir, id, 1), raw) && Stored(files, SigPath(Sibling(out.dir, id, 1)), sig)
            && Stored(files, out, raw)
            && Sibling(out.dir, id, 2) !in files && SigPath(Sibling(out.dir, id, 2)) !in files
  {
    var ws := Writes(out, id, 1, raw, sig);
    Completes(map[], out, id, 1, raw, sig);
    ReachedState(map[], out, id, 1, raw, sig, 4);
    NamesApart(out, Sibling(out.dir, id, 1), id, 1);
    NamesApart(out, Sibling(out.dir, id, 2), id, 2);
    SiblingNameInjective(id, 1, id, 2);
    SigPathInjective(Sibling(out.dir, id, 1), Sibling(out.dir, id, 2));
    SigIsNoSibling(Sibling(out.dir, id, 1), out.dir, id, 2);
    SigIsNoSibling(Sibling(out.dir, id, 2), out.dir, id, 1);
    SigIsNoSibling(out, out.dir, id, 2);
    PerformFrame(map[], ws, 4, Sibling(out.dir, id, 2));
    PerformFrame(map[], ws, 4, SigPath(Sibling(out.dir, id, 2)));
    SiblingWritten(out, id, raw, sig);
  }

  lemma SiblingWritten(out: Path, id: bytes, raw: bytes, sig: bytes)
    requires LatestName(out.name)
    ensures var files := Perform(map[], Writes(out, id, 1, raw, sig), 4).0;
            Stored(files, Sibling(out.dir, id, 1), raw) && Stored(files, SigPath(Sibling(out.dir, id, 1)), sig)
  {
    var ws, p := Writes(out, id, 1, raw, sig), Sibling(out.dir, id, 1);
    NamesApart(out, p, id, 1);
    SigIsNoSibling(p, out.dir, id, 1);
    var none: FileMap := map[];
    assert Perform(none, ws, 1) == (Put(none, ws[0]), true);
    assert Perform(none, ws, 2) == (Put(Put(none, ws[0]), ws[1]), true);
    assert Perform(none, ws, 3) == (Put(Put(Put(none, ws[0]), ws[1]), ws[2]), true);
    assert Perform(none, ws, 4) == (Put(Put(Put(Put(none, ws[0]), ws[1]), ws[2]), ws[3]), true);
  }

  lemma FirstPublishes(c: Platform, key: bytes, disk: Disk) returns (raw: bytes, sig: bytes)
    ensures var files := RunCommand(c, map[], First(c, key, disk).cmd, 4).0;
            && Stored(files, Sibling([], CATALOG, 1), raw) && Stored(files, SigPath(Sibling([], CATALOG, 1)), sig)
            && Stored(files, LATEST, raw)
            && Sibling([], CATALOG, 2) !in files && SigPath(Sibling([], CATALOG, 2)) !in files
    ensures Heading(raw) == Some((CATALOG, 1)) && AgreeingSignature(raw) == Some(sig) && StrictRead(raw).Some?
    ensures BuiltBy(c, map[], First(c, key, disk).cmd).Ok? && BuiltBy(c, map[], First(c, key, disk).cmd).value.raw == raw
  {
    var cmd := First(c, key, disk).cmd;
    PlainValid(c);
    raw, sig := FirstPlan(c, key, disk);
    LatestIsLatest();
    FreshPlan(Plan(c, map[], cmd), LATEST, CATALOG, raw, sig);
  }

  lemma FreshPlan(plan: Option<seq<Write>>, out: Path, id: bytes, raw: bytes, sig: bytes)
    requires LatestName(out.name) && plan == Some(Writes(out, id, 1, raw, sig))
    ensures var files := RunPlan(map[], plan, 4).0;
            && Stored(files, Sibling(out.dir, id, 1), raw) && Stored(files, SigPath(Sibling(out.dir, id, 1)), sig)
            && Stored(files, out, raw)
            && Sibling(out.dir, id, 2) !in files && SigPath(Sibling(out.dir, id, 2)) !in files
  {
    FreshRun(out, id, raw, sig);
  }

  lemma FirstPlan(c: Platform, key: bytes, disk: Disk) returns (raw: bytes, sig: bytes)
    ensures Plan(c, map[], First(c, key, disk).cmd) == Some(Writes(LATEST, CATALOG, 1, raw, sig))
    ensures BuiltBy(c, map[], First(c, key, disk).cmd).Ok? && BuiltBy(c, map[], First(c, key, disk).cmd).value.raw == raw
    ensures Heading(raw) == Some((CATALOG, 1)) && AgreeingSignature(raw) == Some(sig) && StrictRead(raw).Some?
  {
    var cmd := First(c, key, disk).cmd;
    FirstBuilds(c, key, disk);
    BuiltStrict(c, None, key, disk);
    raw, sig := PlanLabelled(c, map[], cmd);
  }

  lemma FirstBuilds(c: Platform, key: bytes, disk: Disk)
    ensures SnapshotFor(c, Plain(c), None, 0, key, disk).Ok? && GoodConfig(Plain(c))
    ensures var cmd := First(c, key, disk).cmd;
            Plan(c, map[], cmd).Some? && BuiltBy(c, map[], cmd) == SnapshotFor(c, Plain(c), None, 0, key, disk)
  {
    var cmd := First(c, key, disk).cmd;
    PlainValid(c);
    PlainBuilds(c, None, key, disk);
    BuiltOn(c, map[], cmd, None);
    BuiltPlanned(c, map[], cmd, SnapshotFor(c, Plain(c), None, 0, key, disk).value);
  }

  lemma BuiltStrict(c: Platform, previous: Option<bytes>, key: bytes, disk: Disk)
    requires SnapshotFor(c, Plain(c), previous, 0, key, disk).Ok?
    ensures StrictRead(SnapshotFor(c, Plain(c), previous, 0, key, disk).value.raw).Some?
  {
    PlainValid(c);
    var s := BuiltReadsBack(c, Plain(c), previous, 0, key, disk);
  }

  lemma SecondPlan(c: Platform, key: bytes, disk: Disk, out: Path, files: FileMap, first: bytes)
    returns (raw: bytes, sig: bytes)
    requires Stored(files, LATEST, first) && Heading(first) == Some((CATALOG, 1)) && StrictRead(first).Some?
    ensures Plan(c, files, Second(c, key, disk, out).cmd) == Some(Writes(out, CATALOG, 2, raw, sig))
    ensures Heading(raw) == Some((CATALOG, 2)) && Next(files, Second(c, key, disk, out).cmd) == 2
  {
    var cmd := Second(c, key, disk, out).cmd;
    PlainValid(c);
    ReadsChain(c, Plain(c), first, Typed(first).value);
    PlainBuilds(c, Some(first), key, disk);
    BuiltOn(c, files, cmd, Some(first));
    BuiltPlanned(c, files, cmd, BuiltBy(c, files, cmd).value);
    raw, sig := PlanLabelled(c, files, cmd);
  }

  lemma SecondPublishes(c: Platform, key: bytes, disk: Disk, out: Path, files: FileMap, first: bytes) returns (raw: bytes)
    requires out.dir == [] && Stored(files, LATEST, first) && Heading(first) == Some((CATALOG, 1)) && StrictRead(first).Some?
    requires Sibling([], CATALOG, 2) !in files && SigPath(Sibling([], CATALOG, 2)) !in files
    ensures RunCommand(c, files, Second(c, key, disk, out).cmd, 4).1
    ensures Stored(RunCommand(c, files, Second(c, key, disk, out).cmd, 4).0, out, raw) && Heading(raw) == Some((CATALOG, 2))
  {
    var sig;
    raw, sig := SecondPlan(c, key, disk, out, files, first);
    Completes(files, out, CATALOG, 2, raw, sig);
    ReachedState(files, out, CATALOG, 2, raw, sig, 4);
  }

  /**
   Two runs, from an empty store, after which a published sibling is gone: the second run takes the name of the
   first sibling for its latest file, completes, and leaves the bytes of sequence 2 under the name of sequence 1.
   */
  lemma SiblingDestroyed(c: Platform, key: bytes, disk: Disk)
    ensures var p := Sibling([], CATALOG, 1);
            var before := StoreAfter(c, map[], [First(c, key, disk)]);
            var after := StoreAfter(c, map[], [First(c, key, disk), Second(c, key, disk, p)]);
            && p in before && Heading(before[p]) == Some((CATALOG, 1))
            && p in after && Heading(after[p]) == Some((CATALOG, 2))
  {
    var p := Sibling([], CATALOG, 1);
    TwoRuns(c, First(c, key, disk), Second(c, key, disk, p));
    var raw, sig := FirstPublishes(c, key, disk);
    var raw' := SecondPublishes(c, key, disk, p, StoreAfter(c, map[], [First(c, key, disk)]), raw);
  }

  /**
   Two runs after which a published signature file is gone: the second takes the name of the first sibling's
   signature file for its latest file, and leaves a snapshot there that the sibling does not agree with.
   */
  lemma SignatureDestroyed(c: Platform, key: bytes, disk: Disk)
    ensures var p := Sibling([], CATALOG, 1);
            var before := StoreAfter(c, map[], [First(c, key, disk)]);
            var after := StoreAfter(c, map[], [First(c, key, disk), Second(c, key, disk, SigPath(p))]);
            && p in before && SigPath(p) in before && VerifyDetachedSig(before[p], before[SigPath(p)], true) == None
            && SigPath(p) in after && Heading(after[SigPath(p)]) == Some((CATALOG, 2))
  {
    var p := Sibling([], CATALOG, 1);
    TwoRuns(c, First(c, key, disk), Second(c, key, disk, SigPath(p)));
    var raw, sig := FirstPublishes(c, key, disk);
    var raw' := SecondPublishes(c, key, disk, SigPath(p), StoreAfter(c, map[], [First(c, key, disk)]), raw);
  }

  /**
   The first run, stopped after its third write, leaves a latest file without a signature file. The second, stopped
   there, leaves sequence 2 beside the signature file of sequence 1; `StopTearsPair` says when that still agrees.
   */
  lemma PairTorn(c: Platform, key: bytes, disk: Disk)
    ensures var torn := StoreAfter(c, map[], [Execution(First(c, key, disk).cmd, 3)]);
            LATEST in torn && Heading(torn[LATEST]) == Some((CATALOG, 1)) && SigPath(LATEST) !in torn
    ensures var before := StoreAfter(c, map[], [First(c, key, disk)]);
            var torn := StoreAfter(c, map[], [First(c, key, disk), Execution(Second(c, key, disk, LATEST).cmd, 3)]);
            && LATEST in before && Heading(before[LATEST]) == Some((CATALOG, 1)) && SigPath(LATEST) in before
            && AgreeingSignature(before[LATEST]) == Some(before[SigPath(LATEST)])
            && LATEST in torn && Heading(torn[LATEST]) == Some((CATALOG, 2))
            && SigPath(LATEST) in torn && torn[SigPath(LATEST)] == before[SigPath(LATEST)]
            && (VerifyDetachedSig(torn[LATEST], torn[SigPath(LATEST)], true) == None <==>
                EmbeddedSignature(torn[LATEST]) == EmbeddedSignature(before[LATEST]))
  {
    FirstTorn(c, key, disk);
    TwoRuns(c, Execution(First(c, key, disk).cmd, 3), First(c, key, disk));
    TwoRuns(c, First(c, key, disk), Execution(Second(c, key, disk, LATEST).cmd, 3));
    FirstCompletes(c, key, disk);
    SecondTorn(c, key, disk, StoreAfter(c, map[], [First(c, key, disk)]));
  }

  lemma FirstReaches(c: Platform, key: bytes, disk: Disk, stop: nat)
    requires stop >= 3
    ensures ReachesLatest(c, map[], First(c, key, disk).cmd, stop)
  {
    var raw, sig := FirstPlan(c, key, disk);
    Completes(map[], LATEST, CATALOG, 1, raw, sig);
  }

  lemma FirstTorn(c: Platform, key: bytes, disk: Disk)
    ensures var torn := RunCommand(c, map[], First(c, key, disk).cmd, 3).0;
            LATEST in torn && Heading(torn[LATEST]) == Some((CATALOG, 1)) && SigPath(LATEST) !in torn
  {
    PlainValid(c);
    LatestIsLatest();
    FirstReaches(c, key, disk, 3);
    StopTearsPair(c, map[], First(c, key, disk).cmd, 3);
  }

  /** The first run leaves the latest file with its signature, and nothing of sequence 2. */
  ghost predicate PublishedFirst(files: FileMap) {
    && LATEST in files && Heading(files[LATEST]) == Some((CATALOG, 1)) && StrictRead(files[LATEST]).Some?
    && SigPath(LATEST) in files && AgreeingSignature(files[LATEST]) == Some(files[SigPath(LATEST)])
    && Sibling([], CATALOG, 2) !in files && SigPath(Sibling([], CATALOG, 2)) !in files
  }

  lemma FirstCompletes(c: Platform, key: bytes, disk: Disk)
    ensures PublishedFirst(RunCommand(c, map[], First(c, key, disk).cmd, 4).0)
  {
    var raw, sig := FirstPublishes(c, key, disk);
    FirstSigned(c, key, disk);
  }

  lemma FirstSigned(c: Platform, key: bytes, disk: Disk)
    ensures LatestSigned(RunCommand(c, map[], First(c, key, disk).cmd, 4).0, LATEST, SNAPSHOTS)
  {
    PlainValid(c);
    LatestIsLatest();
    CommandLatest(c, map[], First(c, key, disk).cmd, 4, LATEST);
  }

  lemma SecondReaches(c: Platform, key: bytes, disk: Disk, out: Path, files: FileMap, stop: nat)
    requires PublishedFirst(files) && out.dir == [] && stop >= 3
    ensures ReachesLatest(c, files, Second(c, key, disk, out).cmd, stop) && Next(files, Second(c, key, disk, out).cmd) == 2
  {
    var raw, sig := SecondPlan(c, key, disk, out, files, files[LATEST]);
    PlanReaches(files, Plan(c, files, Second(c, key, disk, out).cmd), stop, out, raw, sig);
  }

  lemma PlanReaches(files: FileMap, plan: Option<seq<Write>>, stop: nat, out: Path, raw: bytes, sig: bytes)
    requires Sibling(out.dir, CATALOG, 2) !in files && SigPath(Sibling(out.dir, CATALOG, 2)) !in files && stop >= 3
    requires plan == Some(Writes(out, CATALOG, 2, raw, sig))
    ensures ReachedBy(files, plan, stop)
  {
    Completes(files, out, CATALOG, 2, raw, sig);
  }

  lemma TornBeside(c: Platform, files: FileMap, cmd: Command, out: Path)
    requires out == cmd.out && GoodConfig(cmd.config) && LatestName(out.name) && ReachesLatest(c, files, cmd, 3)
    requires out in files && SigPath(out) in files && AgreeingSignature(files[out]) == Some(files[SigPath(out)])
    ensures var torn := RunCommand(c, files, cmd, 3).0;
            && out in torn && Heading(torn[out]) == Some((cmd.config.catalogId, Next(files, cmd)))
            && SigPath(out) in torn && torn[SigPath(out)] == files[SigPath(out)]
            && (VerifyDetachedSig(torn[out], torn[SigPath(out)], true) == None <==>
                EmbeddedSignature(torn[out]) == EmbeddedSignature(files[out]))
  {
    StopTearsPair(c, files, cmd, 3);
    AgreesExactly(files[out], files[SigPath(out)]);
  }

  lemma SecondTorn(c: Platform, key: bytes, disk: Disk, files: FileMap)
    requires PublishedFirst(files)
    ensures var torn := RunCommand(c, files, Second(c, key, disk, LATEST).cmd, 3).0;
            && LATEST in torn && Heading(torn[LATEST]) == Some((CATALOG, 2))
            && SigPath(LATEST) in torn && torn[SigPath(LATEST)] == files[SigPath(LATEST)]
            && (VerifyDetachedSig(torn[LATEST], torn[SigPath(LATEST)], true) == None <==>
                EmbeddedSignature(torn[LATEST]) == EmbeddedSignature(files[LATEST]))
  {
    PlainValid(c);
    LatestIsLatest();
    SecondReaches(c, key, disk, LATEST, files, 3);
    TornBeside(c, files, Second(c, key, disk, LATEST).cmd, LATEST);
  }

  // ----- a run that is not on top of the latest file -----

  lemma BothRecorded(c: Platform, a: Execution, b: Execution, outs: set<Path>)
    requires GoodConfig(a.cmd.config) && GoodConfig(b.cmd.config) && a.cmd.out in outs && b.cmd.out in outs
    requires forall o {:trigger o in outs} | o in outs :: LatestName(o.name)
    ensures Recorded(StoreAfter(c, map[], [a, b]), outs, SNAPSHOTS)
  {
    EmptyRecorded(outs);
    StoreRecorded(c, map[], [a, b], outs);
  }

  lemma BothGood(c: Platform, key: bytes, disk: Disk)
    ensures Recorded(StoreAfter(c, map[], [First(c, key, disk), Second(c, key, disk, LATEST)]), {LATEST}, SNAPSHOTS)
  {
    PlainValid(c);
    LatestIsLatest();
    BothRecorded(c, First(c, key, disk), Second(c, key, disk, LATEST), {LATEST});
  }

  lemma RepeatCompletes(c: Platform, key: bytes, disk: Disk, files: FileMap, raw: bytes)
    requires Recorded(files, {LATEST}, SNAPSHOTS) && Stored(files, Sibling([], CATALOG, 1), raw)
    requires BuiltBy(c, files, First(c, key, disk).cmd).Ok? && BuiltBy(c, files, First(c, key, disk).cmd).value.raw == raw
    ensures RunCommand(c, files, First(c, key, disk).cmd, 4).1
    ensures Stored(RunCommand(c, files, First(c, key, disk).cmd, 4).0, LATEST, raw)
  {
    var cmd := First(c, key, disk).cmd;
    PlainValid(c);
    var b := BuiltBy(c, files, cmd).value;
    BuiltNumber(c, files, cmd, b);
    RefusedChangesNothing(c, files, {LATEST}, cmd, 4, b);
    ReachesExactly(c, files, {LATEST}, cmd, 4);
    BuiltPlanned(c, files, cmd, b);
    var again, sig := PlanLabelled(c, files, cmd);
    PlanLatest(files, Plan(c, files, cmd), 4, LATEST, CATALOG, 1, again, sig, LATEST, SNAPSHOTS);
  }

  lemma FirstAnywhere(c: Platform, key: bytes, disk: Disk, files: FileMap)
    ensures BuiltBy(c, files, First(c, key, disk).cmd) == BuiltBy(c, map[], First(c, key, disk).cmd)
  {
    BuiltOn(c, files, First(c, key, disk).cmd, None);
    BuiltOn(c, map[], First(c, key, disk).cmd, None);
  }

  /**
   Three runs that all complete, after which the latest file is back at sequence 1: the first is repeated after the
   second, still without `--previous`, and builds the same bytes.
   */
  lemma LatestMovesBack(c: Platform, key: bytes, disk: Disk)
    ensures var one := StoreAfter(c, map[], [First(c, key, disk)]);
            var two := StoreAfter(c, map[], [First(c, key, disk), Second(c, key, disk, LATEST)]);
            var (three, done) := RunCommand(c, two, First(c, key, disk).cmd, 4);
            && LATEST in one && Heading(one[LATEST]) == Some((CATALOG, 1))
            && LATEST in two && Heading(two[LATEST]) == Some((CATALOG, 2))
            && done && LATEST in three && three[LATEST] == one[LATEST]
  {
    TwoRuns(c, First(c, key, disk), Second(c, key, disk, LATEST));
    var raw, sig := FirstPublishes(c, key, disk);
    var one := RunCommand(c, map[], First(c, key, disk).cmd, 4).0;
    var raw' := SecondPublishes(c, key, disk, LATEST, one, raw);
    SecondSpares(c, key, disk, one);
    BothGood(c, key, disk);
    var two := RunCommand(c, one, Second(c, key, disk, LATEST).cmd, 4).0;
    FirstAnywhere(c, key, disk, two);
    RepeatCompletes(c, key, disk, two, raw);
  }

  lemma SecondSpares(c: Platform, key: bytes, disk: Disk, files: FileMap)
    requires Sibling([], CATALOG, 1) in files
    ensures Stored(RunCommand(c, files, Second(c, key, disk, LATEST).cmd, 4).0, Sibling([], CATALOG, 1),
                   files[Sibling([], CATALOG, 1)])
  {
    LatestIsLatest();
    NamesApart(LATEST, LATEST, CATALOG, 1);
    CommandSpares(c, files, Second(c, key, disk, LATEST).cmd, 4, [], CATALOG, 1, Sibling([], CATALOG, 1));
  }

  lemma TwoRuns(c: Platform, a: Execution, b: Execution)
    ensures StoreAfter(c, map[], [a]) == RunCommand(c, map[], a.cmd, a.stop).0
    ensures StoreAfter(c, map[], [a, b]) == RunCommand(c, StoreAfter(c, map[], [a]), b.cmd, b.stop).0
  {
    assert [a][..0] == [] && [a, b][..1] == [a];
    assert StoreAfter(c, map[], [a][..0]) == map[];
  }
}
