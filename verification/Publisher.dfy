/** The publisher's command: one build, four writes in a fixed order, any of which may be the last. */
module Publisher {
  import opened Basics
  import Json
  import Text
  import opened Signing
  import opened Timestamps
  import opened Documents
  import opened Verify
  import opened Build
  import opened Published
  import opened ChainLogs
  import opened ClientRuns
  import opened Protocol
  import opened Accepted
  import opened Files
  import opened Keeping
  import opened Walk

  /** The arguments of one command; the previous snapshot, if any, is read from a published file. */
  datatype Command = Command(
    config: SnapshotConfig, previous: Option<Path>, at: Instant, key: bytes, disk: Disk, out: Path)

  function PreviousBytes(files: FileMap, previous: Option<Path>): Result<Option<bytes>, Error> {
    match previous
    case None => Ok(None)
    case Some(p) => if p in files then Ok(Some(files[p])) else Err(Io)
  }

  function BuiltBy(c: Platform, files: FileMap, cmd: Command): Result<BuiltSnapshot, Error> {
    var previous :- PreviousBytes(files, cmd.previous);
    SnapshotFor(c, cmd.config, previous, cmd.at, cmd.key, cmd.disk)
  }

  /** The signature file: the embedded signature and a line ending. */
  function SignatureFile(raw: bytes): Option<bytes> {
    var signature :- DetachedSignature(raw);
    Some(signature + "\n")
  }

  /** The writes of a command, when it gets as far as writing. */
  function Plan(c: Platform, files: FileMap, cmd: Command): Option<seq<Write>> {
    match BuiltBy(c, files, cmd)
    case Err(_) => None
    case Ok(b) =>
      var sig :- SignatureFile(b.raw);
      Some(Writes(cmd.out, cmd.config.catalogId, b.sequence as nat, b.raw, sig))
  }

  function RunCommand(c: Platform, files: FileMap, cmd: Command, stop: nat): (FileMap, bool) {
    RunPlan(files, Plan(c, files, cmd), stop)
  }

  method BuildSnapshotCommand(c: Platform, fs: FileSystem, cmd: Command, stop: nat) returns (done: bool)
    modifies fs
    ensures (fs.files, done) == RunCommand(c, old(fs.files), cmd, stop)
  {
    ghost var files := fs.files;
    var previous := PreviousBytes(fs.files, cmd.previous);
    if previous.Err? { return false; }
    var built := BuildSnapshot(c, cmd.config, previous.value, cmd.at, cmd.key, cmd.disk);
    if built.Err? { return false; }
    var sig := SignatureFile(built.value.raw);
    if sig.None? { return false; }
    done := WriteAll(fs, cmd.out, cmd.config.catalogId, built.value.sequence as nat, built.value.raw, sig.value, stop);
  }

  /** The four writes: the retention sibling and its signature first, then the latest file and its signature. */
  method WriteAll(fs: FileSystem, out: Path, id: bytes, n: nat, raw: bytes, sig: bytes, stop: nat) returns (done: bool)
    modifies fs
    ensures (fs.files, done) == RunPlan(old(fs.files), Some(Writes(out, id, n, raw, sig)), stop)
  {
    ghost var files, ws := fs.files, Writes(out, id, n, raw, sig);
    assert Perform(files, ws, 0) == (files, true);
    if stop == 0 { return false; }
    var retention := Sibling(out.dir, id, n);
    var ok := fs.WriteImmutable(retention, raw);
    assert Perform(files, ws, 1) == (fs.files, ok);
    if !ok { RefusedAtOnce(files, ws, if stop < 4 then stop else 4); }
    if !ok || stop == 1 { return false; }
    ok := fs.WriteImmutable(SigPath(retention), sig);
    assert Perform(files, ws, 2) == (fs.files, ok);
    if !ok {
      assert Perform(files, ws, 3) == (fs.files, false);
      assert Perform(files, ws, 4) == (fs.files, false);
    }
    if !ok || stop == 2 { return false; }
    fs.WriteFile(out, raw);
    assert Perform(files, ws, 3) == (fs.files, true);
    if stop == 3 { return false; }
    fs.WriteFile(SigPath(out), sig);
    assert Perform(files, ws, 4) == (fs.files, true);
    return true;
  }

  // ----- what a build is labelled -----

  function Heading(raw: bytes): Option<(bytes, nat)> {
    var s :- Typed(raw);
    Some((s.catalogId, s.sequence as nat))
  }

  /** The signature file of published bytes, when verifiers find that it agrees with them. */
  function AgreeingSignature(raw: bytes): Option<bytes> {
    var file :- SignatureFile(raw);
    if VerifyDetachedSig(raw, file, true).None? then Some(file) else None
  }

  const SNAPSHOTS := Labels(raw => Heading(raw), raw => AgreeingSignature(raw))

  lemma SignedFile(c: Platform, config: SnapshotConfig, previous: Option<bytes>, at: Instant, key: bytes, disk: Disk)
    requires SnapshotFor(c, config, previous, at, key, disk).Ok?
    ensures var raw := SnapshotFor(c, config, previous, at, key, disk).value.raw;
            SignatureFile(raw).Some? && AgreeingSignature(raw) == SignatureFile(raw)
  {
    var draft := DraftSteps(c, config, previous, at, key, disk);
    PublishedFile(c, draft, key);
  }

  lemma PublishedFile(c: Platform, draft: CatalogSnapshot, key: bytes)
    requires Build.Publish(c, draft, key).Ok?
    ensures var raw := Build.Publish(c, draft, key).value.raw;
            SignatureFile(raw).Some? && AgreeingSignature(raw) == SignatureFile(raw)
  {
    SignedDocumentFile(c, Json.Print(EncodeSnapshot(draft)), key);
  }

  lemma SignedDocumentFile(c: Platform, unsigned: bytes, key: bytes)
    requires SignDocument(c, unsigned, key).Some?
    ensures var raw := SignDocument(c, unsigned, key).value;
            SignatureFile(raw).Some? && AgreeingSignature(raw) == SignatureFile(raw)
  {
    PublishedSigAgrees(c, unsigned, key, "\n", true);
    FileAgrees(SignDocument(c, unsigned, key).value);
  }

  lemma FileAgrees(raw: bytes)
    requires DetachedSignature(raw).Some? && VerifyDetachedSig(raw, DetachedSignature(raw).value + "\n", true).None?
    ensures SignatureFile(raw).Some? && AgreeingSignature(raw) == SignatureFile(raw)
  {
  }

  /** A build is headed by its catalog and its sequence, and its signature file agrees with it. */
  lemma BuildLabelled(c: Platform, files: FileMap, cmd: Command, b: BuiltSnapshot)
    requires GoodConfig(cmd.config) && BuiltBy(c, files, cmd) == Ok(b)
    ensures Heading(b.raw) == Some((cmd.config.catalogId, b.sequence as nat))
    ensures SignatureFile(b.raw).Some? && AgreeingSignature(b.raw) == SignatureFile(b.raw)
  {
    var previous := PreviousBytes(files, cmd.previous).value;
    SignedFile(c, cmd.config, previous, cmd.at, cmd.key, cmd.disk);
    var s := BuiltReadsBack(c, cmd.config, previous, cmd.at, cmd.key, cmd.disk);
  }

  // ----- any sequence of runs, each stopped anywhere -----

  datatype Execution = Execution(cmd: Command, stop: nat)

  function StoreAfter(c: Platform, start: FileMap, runs: seq<Execution>): FileMap {
    if runs == [] then start
    else
      var n := |runs| - 1;
      RunCommand(c, StoreAfter(c, start, runs[..n]), runs[n].cmd, runs[n].stop).0
  }

  ghost predicate GoodRuns(runs: seq<Execution>, outs: set<Path>) {
    forall i | 0 <= i < |runs| :: GoodConfig(runs[i].cmd.config) && runs[i].cmd.out in outs
  }

  lemma CommandRecorded(c: Platform, files: FileMap, cmd: Command, stop: nat, outs: set<Path>)
    requires Recorded(files, outs, SNAPSHOTS) && GoodConfig(cmd.config) && cmd.out in outs
    ensures Recorded(RunCommand(c, files, cmd, stop).0, outs, SNAPSHOTS)
  {
    if Plan(c, files, cmd).Some? {
      var raw, sig := PlanLabelled(c, files, cmd);
      PlanRecorded(files, Plan(c, files, cmd), stop, outs, SNAPSHOTS, cmd.out, cmd.config.catalogId, Next(files, cmd), raw, sig);
    }
  }

  lemma {:induction false} StoreRecorded(c: Platform, start: FileMap, runs: seq<Execution>, outs: set<Path>)
    requires Recorded(start, outs, SNAPSHOTS) && GoodRuns(runs, outs)
    ensures Recorded(StoreAfter(c, start, runs), outs, SNAPSHOTS)
  {
    if runs != [] {
      var n := |runs| - 1;
      StoreRecorded(c, start, runs[..n], outs);
      CommandRecorded(c, StoreAfter(c, start, runs[..n]), runs[n].cmd, runs[n].stop, outs);
    }
  }

  lemma EmptyRecorded(outs: set<Path>)
    requires forall o {:trigger o in outs} | o in outs :: LatestName(o.name)
    ensures Recorded(map[], outs, SNAPSHOTS)
  {
  }

  lemma RecordedReading(files: FileMap, outs: set<Path>, dir: bytes, id: bytes, n: nat, out: Path)
    requires Recorded(files, outs, SNAPSHOTS) && out in outs
    ensures Sibling(dir, id, n) in files ==> Heading(files[Sibling(dir, id, n)]) == Some((id, n))
    ensures SigPath(Sibling(dir, id, n)) in files ==>
              && Sibling(dir, id, n) in files
              && AgreeingSignature(files[Sibling(dir, id, n)]) == Some(files[SigPath(Sibling(dir, id, n))])
    ensures out in files ==>
              && Heading(files[out]).Some?
              && var (i, m) := Heading(files[out]).value; Stored(files, Sibling(out.dir, i, m), files[out])
  {
    if out in files { assert CopiesSibling(files, out, SNAPSHOTS); }
  }

  /**
   The publisher's store under crashes. After any sequence of runs, each stopped anywhere between its writes:
   every sibling is a snapshot of the catalog and sequence in its name; a sibling's signature file is present
   only beside the sibling, and verifies against it; and the latest file, once written, is byte for byte the
   sibling of its own catalog and sequence.
   */
  lemma StoreUnderCrashes(c: Platform, runs: seq<Execution>, outs: set<Path>, dir: bytes, id: bytes, n: nat, out: Path)
    requires GoodRuns(runs, outs) && out in outs && forall o {:trigger o in outs} | o in outs :: LatestName(o.name)
    ensures var files := StoreAfter(c, map[], runs);
            && (Sibling(dir, id, n) in files ==> Heading(files[Sibling(dir, id, n)]) == Some((id, n)))
            && (SigPath(Sibling(dir, id, n)) in files ==>
                  && Sibling(dir, id, n) in files
                  && VerifyDetachedSig(files[Sibling(dir, id, n)], files[SigPath(Sibling(dir, id, n))], true) == None)
            && (out in files ==>
                  && Heading(files[out]).Some?
                  && var (i, m) := Heading(files[out]).value; Stored(files, Sibling(out.dir, i, m), files[out]))
  {
    EmptyRecorded(outs);
    StoreRecorded(c, map[], runs, outs);
    RecordedReading(StoreAfter(c, map[], runs), outs, dir, id, n, out);
  }

  lemma BuiltOn(c: Platform, files: FileMap, cmd: Command, previous: Option<bytes>)
    requires PreviousBytes(files, cmd.previous) == Ok(previous)
    ensures BuiltBy(c, files, cmd) == SnapshotFor(c, cmd.config, previous, cmd.at, cmd.key, cmd.disk)
  {
  }

  /** A build always gets as far as writing. */
  lemma BuiltPlanned(c: Platform, files: FileMap, cmd: Command, b: BuiltSnapshot)
    requires GoodConfig(cmd.config) && BuiltBy(c, files, cmd) == Ok(b)
    ensures Plan(c, files, cmd).Some?
  {
    BuildLabelled(c, files, cmd, b);
  }

  // ----- which siblings a run spares -----

  /** The sequence that a command is to publish, known before it runs: one, or one more than that of `--previous`. */
  function Next(files: FileMap, cmd: Command): nat {
    match cmd.previous
    case None => 1
    case Some(p) => if p in files then NextSequence(Number(files[p])) as nat else 0
  }

  lemma BuiltNumber(c: Platform, files: FileMap, cmd: Command, b: BuiltSnapshot)
    requires BuiltBy(c, files, cmd) == Ok(b)
    ensures b.sequence as nat == Next(files, cmd)
  {
    var previous := PreviousBytes(files, cmd.previous).value;
    SnapshotNumber(c, cmd.config, previous, cmd.at, cmd.key, cmd.disk, b);
  }

  lemma SnapshotNumber(c: Platform, config: SnapshotConfig, previous: Option<bytes>, at: Instant, key: bytes, disk: Disk,
                       b: BuiltSnapshot)
    requires SnapshotFor(c, config, previous, at, key, disk) == Ok(b)
    ensures b.sequence == match previous case None => 1 case Some(p) => NextSequence(Number(p))
  {
    var d := DraftSteps(c, config, previous, at, key, disk);
    PublishedNumber(c, d, key, b);
    ChainNumber(c, config, previous, d.sequence, d.previousDigest);
  }

  lemma PublishedNumber(c: Platform, d: CatalogSnapshot, key: bytes, b: BuiltSnapshot)
    requires Build.Publish(c, d, key) == Ok(b)
    ensures b.sequence == d.sequence
  {
  }

  lemma PlanShape(c: Platform, files: FileMap, cmd: Command) returns (raw: bytes, sig: bytes)
    requires Plan(c, files, cmd).Some?
    ensures Plan(c, files, cmd) == Some(Writes(cmd.out, cmd.config.catalogId, Next(files, cmd), raw, sig))
  {
    var b := BuiltBy(c, files, cmd).value;
    BuiltNumber(c, files, cmd, b);
    raw, sig := b.raw, SignatureFile(b.raw).value;
  }

  /** A command that gets as far as writing plans the writes of a labelled build. */
  lemma PlanLabelled(c: Platform, files: FileMap, cmd: Command) returns (raw: bytes, sig: bytes)
    requires GoodConfig(cmd.config) && Plan(c, files, cmd).Some?
    ensures Plan(c, files, cmd) == Some(Writes(cmd.out, cmd.config.catalogId, Next(files, cmd), raw, sig))
    ensures SNAPSHOTS.heading(raw) == Some((cmd.config.catalogId, Next(files, cmd))) && SNAPSHOTS.signature(raw) == Some(sig)
    ensures BuiltBy(c, files, cmd).Ok? && BuiltBy(c, files, cmd).value.raw == raw
  {
    var b := BuiltBy(c, files, cmd).value;
    BuildLabelled(c, files, cmd, b);
    BuiltNumber(c, files, cmd, b);
    raw, sig := b.raw, SignatureFile(b.raw).value;
  }

  lemma CommandSpares(c: Platform, files: FileMap, cmd: Command, stop: nat, dir: bytes, id: bytes, n: nat, p: Path)
    requires p in files && OwnName(cmd.out, cmd.config.catalogId, Next(files, cmd), dir, id, n)
    requires p == Sibling(dir, id, n) || (p == SigPath(Sibling(dir, id, n)) && cmd.out != p)
    ensures Stored(RunCommand(c, files, cmd, stop).0, p, files[p])
  {
    if Plan(c, files, cmd).Some? {
      var raw, sig := PlanShape(c, files, cmd);
      PlanSpares(files, Plan(c, files, cmd), stop, cmd.out, cmd.config.catalogId, Next(files, cmd), raw, sig, dir, id, n, p);
    }
  }

  /** The run replaces its latest file. */
  ghost predicate ReachesLatest(c: Platform, files: FileMap, cmd: Command, stop: nat) {
    ReachedBy(files, Plan(c, files, cmd), stop)
  }

  /** A signature file never reads as a snapshot. */
  lemma SignatureNoHeading(raw: bytes, file: bytes)
    requires AgreeingSignature(raw) == Some(file)
    ensures Heading(file) == None
  {
    var signature := DecodeSignature(TrimLineEndings(file)).value;
    SignatureSpellings(TrimLineEndings(file), signature);
    TrimSplits(file);
    Base64Opens(signature);
    assert file[0] == TrimLineEndings(file)[0];
    NoSnapshotOpens(file);
  }

  lemma Base64Opens(raw: bytes)
    requires Sized(raw, 64)
    ensures Text.Base64Unpadded(raw) != [] && Text.Base64(raw)[0] == Text.Base64Unpadded(raw)[0]
    ensures Text.Base64Unpadded(raw)[0] !in "{[ \t\n\r"
  {
    assert Text.Base64Unpadded(raw)[0] == Text.SextetChar(raw[0] as int / 4);
  }

  lemma NoSnapshotOpens(file: bytes)
    requires file != [] && file[0] !in "{[ \t\n\r"
    ensures Heading(file) == None
  {
    assert Json.SkipSpace(file) == file;
    if Json.ReadValue(file).Some? {
      var j := Json.ReadValue(file).value.0;
      assert !j.Obj? && !j.Arr?;
    }
  }

  /**
   Exactly when a run spares a sibling that is already published, in terms of the names and numbers given to it:
   unless it replaces its latest file, and that has the name of this sibling while the run publishes another
   catalog or another sequence. The sibling and its signature file are both spared exactly when, besides, the
   latest file does not have the name of the signature file.
   */
  lemma SparesExactly(c: Platform, files: FileMap, cmd: Command, stop: nat, dir: bytes, id: bytes, n: nat)
    requires SiblingsNamed(files, SNAPSHOTS) && SiblingsSigned(files, SNAPSHOTS) && GoodConfig(cmd.config)
    requires Sibling(dir, id, n) in files
    ensures var p, after := Sibling(dir, id, n), RunCommand(c, files, cmd, stop).0;
            && (Stored(after, p, files[p]) <==>
                (ReachesLatest(c, files, cmd, stop) ==> OwnName(cmd.out, cmd.config.catalogId, Next(files, cmd), dir, id, n)))
            && (SigPath(p) in files ==>
                  (PairStored(files, after, p) <==>
                   (ReachesLatest(c, files, cmd, stop) ==> Spares(cmd.out, cmd.config.catalogId, Next(files, cmd), dir, id, n))))
  {
    var p := Sibling(dir, id, n);
    if SigPath(p) in files { SignatureNoHeading(files[p], files[SigPath(p)]); }
    if Plan(c, files, cmd).Some? {
      var raw, sig := PlanLabelled(c, files, cmd);
      PlanKeptExact(files, SNAPSHOTS, Plan(c, files, cmd), stop, cmd.out, cmd.config.catalogId, Next(files, cmd), raw, sig,
                    dir, id, n);
    }
  }

  /** Run `j` does not take this name for the latest file of another publication. */
  ghost predicate LeavesName(c: Platform, start: FileMap, runs: seq<Execution>, j: nat, dir: bytes, id: bytes, n: nat,
                             p: Path)
    requires j < |runs|
  {
    var cmd := runs[j].cmd;
    && OwnName(cmd.out, cmd.config.catalogId, Next(StoreAfter(c, start, runs[..j]), cmd), dir, id, n)
    && (p == SigPath(Sibling(dir, id, n)) ==> cmd.out != p)
  }

  lemma StoreStep(c: Platform, start: FileMap, runs: seq<Execution>, k: nat)
    requires k < |runs|
    ensures StoreAfter(c, start, runs[..k + 1])
            == RunCommand(c, StoreAfter(c, start, runs[..k]), runs[k].cmd, runs[k].stop).0
  {
    assert runs[..k + 1][..k] == runs[..k];
  }

  lemma NameKept(c: Platform, start: FileMap, runs: seq<Execution>, k: nat, dir: bytes, id: bytes, n: nat, p: Path,
                 content: bytes)
    requires k < |runs| && Stored(StoreAfter(c, start, runs[..k]), p, content)
    requires p == Sibling(dir, id, n) || p == SigPath(Sibling(dir, id, n))
    requires LeavesName(c, start, runs, k, dir, id, n, p)
    ensures Stored(StoreAfter(c, start, runs[..k + 1]), p, content)
  {
    StoreStep(c, start, runs, k);
    CommandSpares(c, StoreAfter(c, start, runs[..k]), runs[k].cmd, runs[k].stop, dir, id, n, p);
  }

  /**
   Once written, a sibling or its signature file never changes, whatever is built later and wherever runs stop,
   as long as no later run takes its name for the latest file of another publication.
   */
  lemma {:induction false} SiblingsNeverChange(c: Platform, start: FileMap, runs: seq<Execution>, i: nat, k: nat,
                                               dir: bytes, id: bytes, n: nat, p: Path)
    requires i <= k <= |runs| && p in StoreAfter(c, start, runs[..i])
    requires p == Sibling(dir, id, n) || p == SigPath(Sibling(dir, id, n))
    requires forall j {:trigger LeavesName(c, start, runs, j, dir, id, n, p)} | i <= j < k ::
               LeavesName(c, start, runs, j, dir, id, n, p)
    ensures Stored(StoreAfter(c, start, runs[..k]), p, StoreAfter(c, start, runs[..i])[p])
    decreases k
  {
    if i < k {
      SiblingsNeverChange(c, start, runs, i, k - 1, dir, id, n, p);
      NameKept(c, start, runs, k - 1, dir, id, n, p, StoreAfter(c, start, runs[..i])[p]);
    }
  }

  // ----- the latest file and its signature -----

  /** Of the runs for `out`, the last that replaced the latest file stopped before it replaced the signature. */
  ghost predicate Torn(c: Platform, runs: seq<Execution>, out: Path) {
    runs != [] &&
    var n := |runs| - 1;
    if runs[n].cmd.out == out && ReachesLatest(c, StoreAfter(c, map[], runs[..n]), runs[n].cmd, runs[n].stop)
    then runs[n].stop < 4
    else Torn(c, runs[..n], out)
  }

  lemma CommandLatest(c: Platform, files: FileMap, cmd: Command, stop: nat, o: Path)
    requires GoodConfig(cmd.config) && LatestName(cmd.out.name) && LatestName(o.name)
    requires if o == cmd.out && ReachesLatest(c, files, cmd, stop) then stop >= 4 else LatestSigned(files, o, SNAPSHOTS)
    ensures LatestSigned(RunCommand(c, files, cmd, stop).0, o, SNAPSHOTS)
  {
    if Plan(c, files, cmd).Some? {
      var raw, sig := PlanLabelled(c, files, cmd);
      PlanLatest(files, Plan(c, files, cmd), stop, cmd.out, cmd.config.catalogId, Next(files, cmd), raw, sig, o, SNAPSHOTS);
    }
  }

  ghost predicate LatestRuns(runs: seq<Execution>) {
    forall i {:trigger runs[i]} | 0 <= i < |runs| :: GoodConfig(runs[i].cmd.config) && LatestName(runs[i].cmd.out.name)
  }

  lemma {:induction false} UntornSigned(c: Platform, runs: seq<Execution>, out: Path)
    requires LatestRuns(runs) && LatestName(out.name) && !Torn(c, runs, out)
    ensures LatestSigned(StoreAfter(c, map[], runs), out, SNAPSHOTS)
  {
    if runs != [] {
      var n := |runs| - 1;
      var files := StoreAfter(c, map[], runs[..n]);
      if !(runs[n].cmd.out == out && ReachesLatest(c, files, runs[n].cmd, runs[n].stop)) { UntornSigned(c, runs[..n], out); }
      CommandLatest(c, files, runs[n].cmd, runs[n].stop, out);
    }
  }

  /**
   When the latest file has its own signature beside it. After any sequence of runs, each stopped anywhere: if
   the last run that replaced the latest file also replaced its signature file, verifiers find that they agree.
   */
  lemma LatestPairAgrees(c: Platform, runs: seq<Execution>, out: Path)
    requires LatestRuns(runs) && LatestName(out.name) && !Torn(c, runs, out)
    ensures var files := StoreAfter(c, map[], runs);
            out in files ==>
              SigPath(out) in files && VerifyDetachedSig(files[out], files[SigPath(out)], true) == None
  {
    UntornSigned(c, runs, out);
  }

  /** The 64 bytes of signature that published bytes embed, and that a signature file holds. */
  function EmbeddedSignature(raw: bytes): Option<bytes> {
    var text :- DetachedSignature(raw);
    DecodeSignature(text)
  }

  function FileSignature(file: bytes): Option<bytes> {
    if Text.ValidUtf8(file) then DecodeSignature(TrimLineEndings(file)) else None
  }

  lemma AgreesExactly(raw: bytes, file: bytes)
    requires AgreeingSignature(raw).Some?
    ensures VerifyDetachedSig(raw, file, true) == None <==> FileSignature(file) == EmbeddedSignature(raw)
  {
  }

  lemma AgreesWithBoth(a: bytes, b: bytes, file: bytes)
    requires AgreeingSignature(a) == Some(file) && AgreeingSignature(b).Some?
    ensures VerifyDetachedSig(b, file, true) == None <==> EmbeddedSignature(a) == EmbeddedSignature(b)
  {
  }

  /**
   When a run is stopped between the latest file and its signature, whatever was there before. The signature file
   stays as it was, present or absent, and verifiers find that it agrees with the new snapshot exactly when it holds
   the very 64 bytes of signature that the new snapshot embeds.
   */
  lemma StopTearsPair(c: Platform, files: FileMap, cmd: Command, stop: nat)
    requires GoodConfig(cmd.config) && LatestName(cmd.out.name) && ReachesLatest(c, files, cmd, stop) && stop < 4
    ensures var after, out := RunCommand(c, files, cmd, stop).0, cmd.out;
            && out in after && Heading(after[out]) == Some((cmd.config.catalogId, Next(files, cmd)))
            && SameAt(files, after, SigPath(out))
            && (SigPath(out) in files ==>
                  (VerifyDetachedSig(after[out], after[SigPath(out)], true) == None <==>
                   FileSignature(files[SigPath(out)]) == EmbeddedSignature(after[out])))
  {
    var out := cmd.out;
    var raw, sig := PlanLabelled(c, files, cmd);
    PlanLatest(files, Plan(c, files, cmd), stop, out, cmd.config.catalogId, Next(files, cmd), raw, sig, out, SNAPSHOTS);
    if SigPath(out) in files { AgreesExactly(raw, files[SigPath(out)]); }
  }

  /** The snapshot whose signature file stands beside the latest file: that of the last run to reach its fourth write. */
  ghost function SignatureSource(c: Platform, runs: seq<Execution>, out: Path): Option<bytes> {
    if runs == [] then None
    else
      var n := |runs| - 1;
      SourceAfter(c, StoreAfter(c, map[], runs[..n]), runs[n].cmd, runs[n].stop, out, SignatureSource(c, runs[..n], out))
  }

  ghost function SourceAfter(c: Platform, files: FileMap, cmd: Command, stop: nat, out: Path, source: Option<bytes>)
    : Option<bytes>
  {
    if cmd.out == out && ReachesLatest(c, files, cmd, stop) && stop >= 4 && BuiltBy(c, files, cmd).Ok?
    then Some(BuiltBy(c, files, cmd).value.raw) else source
  }

  /** The signature file is that of `source`, and the latest file, if any, is a published snapshot. */
  ghost predicate SignedAs(files: FileMap, out: Path, source: Option<bytes>) {
    && (source.None? ==> SigPath(out) !in files)
    && (source.Some? ==> SigPath(out) in files && SNAPSHOTS.signature(source.value) == Some(files[SigPath(out)]))
    && (out in files ==> SNAPSHOTS.signature(files[out]).Some?)
  }

  lemma CommandSource(c: Platform, files: FileMap, cmd: Command, stop: nat, o: Path, source: Option<bytes>)
    requires GoodConfig(cmd.config) && LatestName(cmd.out.name) && LatestName(o.name) && SignedAs(files, o, source)
    ensures SignedAs(RunCommand(c, files, cmd, stop).0, o, SourceAfter(c, files, cmd, stop, o, source))
  {
    if Plan(c, files, cmd).Some? {
      var raw, sig := PlanLabelled(c, files, cmd);
      PlanLatest(files, Plan(c, files, cmd), stop, cmd.out, cmd.config.catalogId, Next(files, cmd), raw, sig, o, SNAPSHOTS);
    }
  }

  lemma {:induction false} StoreSource(c: Platform, runs: seq<Execution>, out: Path)
    requires LatestRuns(runs) && LatestName(out.name)
    ensures SignedAs(StoreAfter(c, map[], runs), out, SignatureSource(c, runs, out))
  {
    if runs != [] {
      var n := |runs| - 1;
      StoreSource(c, runs[..n], out);
      CommandSource(c, StoreAfter(c, map[], runs[..n]), runs[n].cmd, runs[n].stop, out, SignatureSource(c, runs[..n], out));
    }
  }

  lemma SourceAgrees(files: FileMap, out: Path, source: Option<bytes>)
    requires SignedAs(files, out, source) && out in files
    ensures SigPath(out) in files && VerifyDetachedSig(files[out], files[SigPath(out)], true) == None <==>
            source.Some? && EmbeddedSignature(source.value) == EmbeddedSignature(files[out])
  {
    if source.Some? { AgreesWithBoth(source.value, files[out], files[SigPath(out)]); }
  }

  /**
   Exactly when the latest file has a signature file that agrees with it, after any sequence of runs, each stopped
   anywhere, and any number of them between the two writes: when some run for it has reached its fourth write, and
   the snapshot that the last such run published embeds the same signature as the one that is there now.
   */
  lemma LatestPairExact(c: Platform, runs: seq<Execution>, out: Path)
    requires LatestRuns(runs) && LatestName(out.name)
    ensures var files, source := StoreAfter(c, map[], runs), SignatureSource(c, runs, out);
            out in files ==>
              (SigPath(out) in files && VerifyDetachedSig(files[out], files[SigPath(out)], true) == None <==>
               source.Some? && EmbeddedSignature(source.value) == EmbeddedSignature(files[out]))
  {
    StoreSource(c, runs, out);
    if out in StoreAfter(c, map[], runs) { SourceAgrees(StoreAfter(c, map[], runs), out, SignatureSource(c, runs, out)); }
  }

  /**
   A run that is not stopped completes exactly when the sibling it publishes does not exist with different
   bytes; and a refused run leaves every file as it was, the latest files included.
   */
  lemma RefusedChangesNothing(c: Platform, files: FileMap, outs: set<Path>, cmd: Command, stop: nat, b: BuiltSnapshot)
    requires Recorded(files, outs, SNAPSHOTS) && GoodConfig(cmd.config) && cmd.out in outs
    requires BuiltBy(c, files, cmd) == Ok(b) && stop >= 4
    ensures var sibling := Sibling(cmd.out.dir, cmd.config.catalogId, b.sequence as nat);
            && (RunCommand(c, files, cmd, stop).1 <==> sibling !in files || files[sibling] == b.raw)
            && (!RunCommand(c, files, cmd, stop).1 ==> RunCommand(c, files, cmd, stop).0 == files)
  {
    BuildLabelled(c, files, cmd, b);
    PlanRefused(files, Plan(c, files, cmd), stop, outs, SNAPSHOTS, cmd.out, cmd.config.catalogId, b.sequence as nat,
                b.raw, SignatureFile(b.raw).value);
  }

  // ----- the published chain -----

  /** A run for the one catalog and latest file, on top of the latest bytes when there are any. */
  ghost predicate OnLatest(files: FileMap, out: Path, id: bytes, cmd: Command) {
    && cmd.out == out && cmd.config.catalogId == id && GoodConfig(cmd.config)
    && cmd.previous == if out in files then Some(out) else None
  }

  /** Runs for this latest file are on top of it; runs for others are free, in the same directory or elsewhere. */
  ghost predicate Orderly(files: FileMap, out: Path, id: bytes, cmd: Command) {
    if cmd.out == out then OnLatest(files, out, id, cmd) else LatestName(cmd.out.name)
  }

  ghost predicate Disciplined(c: Platform, out: Path, id: bytes, runs: seq<Execution>) {
    runs == [] ||
    var n := |runs| - 1;
    Disciplined(c, out, id, runs[..n]) && Orderly(StoreAfter(c, map[], runs[..n]), out, id, runs[n].cmd)
  }

  /** The run replaces this latest file. */
  ghost predicate Publishes(c: Platform, files: FileMap, out: Path, cmd: Command, stop: nat) {
    cmd.out == out && ReachesLatest(c, files, cmd, stop) && BuiltBy(c, files, cmd).Ok?
  }

  /** The bytes that the latest file has held, first to last, one for each run that replaced it. */
  ghost function HistoryAfter(c: Platform, out: Path, runs: seq<Execution>): seq<bytes> {
    if runs == [] then []
    else
      var n := |runs| - 1;
      Extended(c, StoreAfter(c, map[], runs[..n]), out, runs[n].cmd, runs[n].stop, HistoryAfter(c, out, runs[..n]))
  }

  ghost function Extended(c: Platform, files: FileMap, out: Path, cmd: Command, stop: nat, h: seq<bytes>): seq<bytes> {
    if Publishes(c, files, out, cmd, stop) then h + [BuiltBy(c, files, cmd).value.raw] else h
  }

  /** What each of them was built from. */
  ghost function OrdersAfter(c: Platform, out: Path, runs: seq<Execution>): seq<Order> {
    if runs == [] then []
    else
      var n := |runs| - 1;
      ExtendedOrders(c, StoreAfter(c, map[], runs[..n]), out, runs[n].cmd, runs[n].stop, HistoryAfter(c, out, runs[..n]),
              OrdersAfter(c, out, runs[..n]))
  }

  ghost function ExtendedOrders(c: Platform, files: FileMap, out: Path, cmd: Command, stop: nat, h: seq<bytes>, orders: seq<Order>)
    : seq<Order>
  {
    if Publishes(c, files, out, cmd, stop) then orders + [Order(cmd.config, Latest(h), cmd.at, cmd.key, cmd.disk)]
    else orders
  }

  lemma ExtendedGrows(c: Platform, files: FileMap, out: Path, cmd: Command, stop: nat, h: seq<bytes>)
    ensures h <= Extended(c, files, out, cmd, stop, h)
  {
  }

  /** What has been published stays published: the history only grows. */
  lemma {:induction false} HistoryGrows(c: Platform, out: Path, runs: seq<Execution>, k: nat)
    requires k <= |runs|
    ensures HistoryAfter(c, out, runs[..k]) <= HistoryAfter(c, out, runs)
  {
    if k < |runs| {
      var n := |runs| - 1;
      HistoryGrows(c, out, runs[..n], k);
      ExtendedGrows(c, StoreAfter(c, map[], runs[..n]), out, runs[n].cmd, runs[n].stop, HistoryAfter(c, out, runs[..n]));
      assert runs[..n][..k] == runs[..k];
    } else {
      assert runs[..k] == runs;
    }
  }

  lemma OrderOf(c: Platform, files: FileMap, out: Path, id: bytes, h: seq<bytes>, cmd: Command)
    returns (o: Order, raw: bytes, n: nat, sig: bytes)
    requires Serves(files, out, id, h) && OnLatest(files, out, id, cmd) && Plan(c, files, cmd).Some?
    ensures o == Order(cmd.config, Latest(h), cmd.at, cmd.key, cmd.disk) && Builds(c, o, raw)
    ensures Plan(c, files, cmd) == Some(Writes(out, id, n, raw, sig)) && n == Number(raw) as int
    ensures BuiltBy(c, files, cmd).Ok? && BuiltBy(c, files, cmd).value.raw == raw
  {
    o := Order(cmd.config, Latest(h), cmd.at, cmd.key, cmd.disk);
    raw, sig := PlanLabelled(c, files, cmd);
    n := Next(files, cmd);
  }

  lemma ExtendedBy(c: Platform, files: FileMap, out: Path, cmd: Command, stop: nat, h: seq<bytes>, orders: seq<Order>,
                   raw: bytes, o: Order)
    requires cmd.out == out && BuiltBy(c, files, cmd).Ok? && BuiltBy(c, files, cmd).value.raw == raw
    requires o == Order(cmd.config, Latest(h), cmd.at, cmd.key, cmd.disk)
    ensures Extended(c, files, out, cmd, stop, h) == if ReachesLatest(c, files, cmd, stop) then h + [raw] else h
    ensures ExtendedOrders(c, files, out, cmd, stop, h, orders) == if ReachesLatest(c, files, cmd, stop) then orders + [o] else orders
  {
  }

  lemma CommandServes(c: Platform, files: FileMap, out: Path, id: bytes, cmd: Command, stop: nat, h: seq<bytes>,
                      raw: bytes, n: nat, sig: bytes)
    requires LatestName(out.name) && Serves(files, out, id, h) && n == |h| + 1
    requires Plan(c, files, cmd) == Some(Writes(out, id, n, raw, sig))
    ensures Serves(RunCommand(c, files, cmd, stop).0, out, id,
                   if ReachesLatest(c, files, cmd, stop) then h + [raw] else h)
  {
    PlanServes(files, Plan(c, files, cmd), stop, out, id, h, raw, sig);
  }

  lemma CommandExtends(c: Platform, files: FileMap, out: Path, id: bytes, cmd: Command, stop: nat, orders: seq<Order>,
                       h: seq<bytes>)
    requires LatestName(out.name) && Serves(files, out, id, h) && OnLatest(files, out, id, cmd)
    requires Posts(c, orders, h) && |h| < U64_LIMIT
    ensures Posts(c, ExtendedOrders(c, files, out, cmd, stop, h, orders), Extended(c, files, out, cmd, stop, h))
    ensures Serves(RunCommand(c, files, cmd, stop).0, out, id, Extended(c, files, out, cmd, stop, h))
  {
    if Plan(c, files, cmd).Some? {
      var o, raw, n, sig := OrderOf(c, files, out, id, h, cmd);
      NextNumber(c, orders, h, o, raw);
      CommandServes(c, files, out, id, cmd, stop, h, raw, n, sig);
      ExtendedBy(c, files, out, cmd, stop, h, orders, raw, o);
      if ReachesLatest(c, files, cmd, stop) { PostsExtend(c, orders, h, o, raw); }
    }
  }

  lemma CommandAside(c: Platform, files: FileMap, out: Path, id: bytes, cmd: Command, stop: nat, h: seq<bytes>)
    requires LatestName(out.name) && LatestName(cmd.out.name) && cmd.out != out && Serves(files, out, id, h)
    ensures Serves(RunCommand(c, files, cmd, stop).0, out, id, h)
  {
    if Plan(c, files, cmd).Some? {
      var raw, sig := PlanShape(c, files, cmd);
      ServesAside(files, Plan(c, files, cmd), stop, cmd.out, cmd.config.catalogId, Next(files, cmd), raw, sig, out, id, h);
    }
  }

  lemma OrderlyExtends(c: Platform, files: FileMap, out: Path, id: bytes, cmd: Command, stop: nat, orders: seq<Order>,
                       h: seq<bytes>)
    requires LatestName(out.name) && Serves(files, out, id, h) && Orderly(files, out, id, cmd)
    requires Posts(c, orders, h) && |h| < U64_LIMIT
    ensures Posts(c, ExtendedOrders(c, files, out, cmd, stop, h, orders), Extended(c, files, out, cmd, stop, h))
    ensures Serves(RunCommand(c, files, cmd, stop).0, out, id, Extended(c, files, out, cmd, stop, h))
  {
    if cmd.out == out {
      CommandExtends(c, files, out, id, cmd, stop, orders, h);
    } else {
      CommandAside(c, files, out, id, cmd, stop, h);
    }
  }

  lemma OneMoreRun(c: Platform, out: Path, id: bytes, runs: seq<Execution>, orders: seq<Order>, files: FileMap,
                   h: seq<bytes>)
    requires runs != [] && LatestName(out.name) && Disciplined(c, out, id, runs) && |h| < U64_LIMIT
    requires files == StoreAfter(c, map[], runs[..|runs| - 1]) && h == HistoryAfter(c, out, runs[..|runs| - 1])
    requires orders == OrdersAfter(c, out, runs[..|runs| - 1])
    requires Posts(c, orders, h) && Serves(files, out, id, h)
    ensures Posts(c, OrdersAfter(c, out, runs), HistoryAfter(c, out, runs))
    ensures Serves(StoreAfter(c, map[], runs), out, id, HistoryAfter(c, out, runs))
    ensures |HistoryAfter(c, out, runs)| <= |h| + 1
  {
    var run := runs[|runs| - 1];
    OrderlyExtends(c, files, out, id, run.cmd, run.stop, orders, h);
  }

  /**
   The siblings form a complete chain. When every run for a latest file passes it whenever it exists, then after any
   number of runs, for it and for other latest files, each stopped anywhere between its writes, the bytes that
   it has held are a history of builds, each on the exact bytes of the one before it; the siblings 1 to N hold that
   history, and the latest file is its last.
   */
  lemma {:induction false} CompleteChain(c: Platform, out: Path, id: bytes, runs: seq<Execution>)
    requires LatestName(out.name) && Disciplined(c, out, id, runs) && |runs| <= U64_LIMIT
    ensures Posts(c, OrdersAfter(c, out, runs), HistoryAfter(c, out, runs)) && |HistoryAfter(c, out, runs)| <= |runs|
    ensures Chained(c, HistoryAfter(c, out, runs))
    ensures Serves(StoreAfter(c, map[], runs), out, id, HistoryAfter(c, out, runs))
  {
    if runs != [] {
      var before := runs[..|runs| - 1];
      CompleteChain(c, out, id, before);
      OneMoreRun(c, out, id, runs, OrdersAfter(c, out, before), StoreAfter(c, map[], before), HistoryAfter(c, out, before));
    }
    PostsChained(c, OrdersAfter(c, out, runs), HistoryAfter(c, out, runs));
  }

  // ----- runs that are not on top of the latest file -----

  /** The sibling of the command's own sequence does not refuse its bytes. */
  ghost predicate Unrefused(c: Platform, files: FileMap, cmd: Command) {
    && BuiltBy(c, files, cmd).Ok?
    && !Refused(files, Immutable(Sibling(cmd.out.dir, cmd.config.catalogId, Next(files, cmd)), BuiltBy(c, files, cmd).value.raw))
  }

  lemma ReachesExactly(c: Platform, files: FileMap, outs: set<Path>, cmd: Command, stop: nat)
    requires Recorded(files, outs, SNAPSHOTS) && cmd.out in outs && GoodConfig(cmd.config)
    ensures ReachesLatest(c, files, cmd, stop) <==> stop >= 3 && Unrefused(c, files, cmd)
  {
    if BuiltBy(c, files, cmd).Ok? { BuiltPlanned(c, files, cmd, BuiltBy(c, files, cmd).value); }
    if Plan(c, files, cmd).Some? {
      var raw, sig := PlanLabelled(c, files, cmd);
      ReachedExact(files, Plan(c, files, cmd), stop, outs, SNAPSHOTS, cmd.out, cmd.config.catalogId, Next(files, cmd), raw, sig);
    }
  }

  lemma HeadingNumber(raw: bytes, id: bytes, n: nat)
    requires Heading(raw) == Some((id, n))
    ensures Number(raw) as int == n
  {
  }

  lemma LatestNumber(c: Platform, files: FileMap, outs: set<Path>, cmd: Command, stop: nat)
    requires Recorded(files, outs, SNAPSHOTS) && cmd.out in outs && GoodConfig(cmd.config)
    ensures var after, out := RunCommand(c, files, cmd, stop).0, cmd.out;
            if ReachesLatest(c, files, cmd, stop) then out in after && Number(after[out]) as int == Next(files, cmd)
            else SameAt(files, after, out)
  {
    if Plan(c, files, cmd).Some? {
      var raw, sig := PlanLabelled(c, files, cmd);
      PlanLatest(files, Plan(c, files, cmd), stop, cmd.out, cmd.config.catalogId, Next(files, cmd), raw, sig, cmd.out, SNAPSHOTS);
      HeadingNumber(raw, cmd.config.catalogId, Next(files, cmd));
    }
  }

  lemma ServedNumber(c: Platform, files: FileMap, out: Path, id: bytes, h: seq<bytes>)
    requires Serves(files, out, id, h) && Chained(c, h) && h != []
    ensures out in files && Number(files[out]) as int == |h|
  {
    assert Link(c, h, |h| - 1);
  }

  /**
   Exactly when a run, on whatever `--previous`, moves the latest file of a served chain back to an earlier sequence:
   when it builds a smaller sequence than the latest, and the sibling of that sequence does not refuse the bytes. From
   sequence 1 on there is such a sibling, so the bytes are those already published, and afterwards the store serves
   the chain up to that sequence.
   */
  lemma MovesBackExactly(c: Platform, files: FileMap, outs: set<Path>, out: Path, id: bytes, h: seq<bytes>, cmd: Command,
                         stop: nat)
    requires Recorded(files, outs, SNAPSHOTS) && out in outs && Serves(files, out, id, h) && Chained(c, h) && h != []
    requires cmd.out == out && cmd.config.catalogId == id && GoodConfig(cmd.config)
    ensures var after, n := RunCommand(c, files, cmd, stop).0, Next(files, cmd);
            && out in after
            && (Number(after[out]) < Number(files[out]) <==> stop >= 3 && n < |h| && Unrefused(c, files, cmd))
            && (Number(after[out]) < Number(files[out]) && n > 0 ==>
                  BuiltBy(c, files, cmd).value.raw == h[n - 1] && Serves(after, out, id, h[..n]))
  {
    ReachesExactly(c, files, outs, cmd, stop);
    LatestNumber(c, files, outs, cmd, stop);
    ServedNumber(c, files, out, id, h);
    var n := Next(files, cmd);
    if ReachesLatest(c, files, cmd, stop) && 0 < n < |h| { MovedBack(c, files, out, id, h, cmd, stop, n); }
  }

  lemma MovedBack(c: Platform, files: FileMap, out: Path, id: bytes, h: seq<bytes>, cmd: Command, stop: nat, n: nat)
    requires LatestName(out.name) && Serves(files, out, id, h) && Unrefused(c, files, cmd) && GoodConfig(cmd.config)
    requires cmd.out == out && cmd.config.catalogId == id && n == Next(files, cmd) && 0 < n <= |h|
    requires ReachesLatest(c, files, cmd, stop)
    ensures BuiltBy(c, files, cmd).value.raw == h[n - 1]
    ensures Serves(RunCommand(c, files, cmd, stop).0, out, id, h[..n])
  {
    var raw, sig := PlanLabelled(c, files, cmd);
    assert Stored(files, Sibling(out.dir, id, n), h[n - 1]);
    ServesAgain(files, Plan(c, files, cmd), stop, out, id, h, n, sig);
  }

  // ----- walking the siblings -----

  /** Fetches the sibling of publication `n`, of sequence n + 1, while it is unexpired and within bounds. */
  ghost predicate FetchesSibling(c: Platform, files: FileMap, out: Path, id: bytes, orders: seq<Order>,
                                 m: VerifiedManifest, f: Fetch, n: nat)
    requires n < |orders|
  {
    && Stored(files, Sibling(out.dir, id, n + 1), f.raw) && f.manifest == m
    && InWindow(orders[n], f.now) && Bounded(c, orders[n], f.raw)
  }

  /** The fetches walk the siblings after that of publication `k`, one by one up to that of `n`. */
  ghost predicate WalksSiblings(c: Platform, files: FileMap, out: Path, id: bytes, orders: seq<Order>,
                                m: VerifiedManifest, k: nat, n: nat, fetches: seq<Fetch>)
    requires n < |orders|
    decreases |fetches|
  {
    if fetches == [] then n == k
    else
      var l := |fetches| - 1;
      && n > 0 && FetchesSibling(c, files, out, id, orders, m, fetches[l], n)
      && WalksSiblings(c, files, out, id, orders, m, k, n - 1, fetches[..l])
  }

  lemma FetchesPublication(c: Platform, files: FileMap, out: Path, id: bytes, orders: seq<Order>, h: seq<bytes>,
                           m: VerifiedManifest, f: Fetch, n: nat)
    requires |orders| == |h| && Serves(files, out, id, h) && n < |h|
    requires FetchesSibling(c, files, out, id, orders, m, f, n)
    ensures Fetches(c, orders, h, m, f, n)
  {
    assert Stored(files, Sibling(out.dir, id, n + 1), h[n]);
  }

  lemma {:induction false} WalksPublications(c: Platform, files: FileMap, out: Path, id: bytes, orders: seq<Order>,
                                             h: seq<bytes>, m: VerifiedManifest, k: nat, n: nat, fetches: seq<Fetch>)
    requires |orders| == |h| && Serves(files, out, id, h) && n < |h|
    requires WalksSiblings(c, files, out, id, orders, m, k, n, fetches)
    ensures Walks(c, orders, h, m, k, n, fetches)
    decreases |fetches|
  {
    if fetches != [] {
      FetchesPublication(c, files, out, id, orders, h, m, fetches[|fetches| - 1], n);
      WalksPublications(c, files, out, id, orders, h, m, k, n - 1, fetches[..|fetches| - 1]);
    }
  }

  /**
   The published siblings can be walked. A client that retains the sibling of publication k, by its bytes, and
   fetches the siblings after it one by one while each is unexpired, accepts every one as the successor.
   */
  lemma SiblingsWalk(c: Platform, files: FileMap, out: Path, id: bytes, orders: seq<Order>, h: seq<bytes>,
                     m: VerifiedManifest, policy: Option<bytes>, k: nat, n: nat, fetches: seq<Fetch>)
    returns (r: Retained, state: Option<Retained>, log: seq<Acceptance>)
    requires Posts(c, orders, h) && |h| <= U64_LIMIT && CollisionFree(c, h) && OneCatalog(c, m, orders)
    requires Serves(files, out, id, h) && k <= n < |h| && WalksSiblings(c, files, out, id, orders, m, k, n, fetches)
    ensures Sibling(out.dir, id, k + 1) in files
    ensures FromSnapshotBytes(c, files[Sibling(out.dir, id, k + 1)], policy) == Some(r)
    ensures Run(c, Some(r), fetches) == (state, log) && |log| == |fetches| && Successors(h, n, log)
    ensures state.Some? && Retains(c, orders, h, state.value, n)
  {
    assert Stored(files, Sibling(out.dir, id, k + 1), h[k]);
    r := RetainedFromBytes(c, orders, h, k, policy);
    WalksPublications(c, files, out, id, orders, h, m, k, n, fetches);
    state, log := ChainWalk(c, orders, h, m, r, k, n, fetches);
  }
}
