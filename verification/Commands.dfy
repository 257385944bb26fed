/** What one command does, from the documents it reads to the files it leaves. */
module Commands {
  import opened Basics
  import opened Text
  import opened Json
  import opened Canonical
  import opened Signing
  import opened Verify
  import opened Build
  import opened Published
  import opened Files
  import opened Publisher
  import opened Publication

  /** The previous snapshot that the command passes to the builder, when it can be read. */
  ghost predicate Reads(files: FileMap, cmd: Command, previous: Option<bytes>) {
    match cmd.previous
    case None => previous == None
    case Some(p) => p in files && previous == Some(files[p])
  }

  /** The signature file: the signature that the snapshot embeds, padded, and a line feed. */
  ghost predicate SignatureLine(c: Platform, key: bytes, raw: bytes, file: bytes) {
    && SigningBytes(raw).Some? && Sized(c.sign(key, SigningBytes(raw).value), 64)
    && file == Base64(c.sign(key, SigningBytes(raw).value)) + "\n"
  }

  /**
   What a run leaves that is stopped before its write number `stop`, and whether it completes: the sibling and its
   signature file are written first, each unless it is there with other bytes; then the latest file, then its
   signature file.
   */
  ghost function Left(files: FileMap, out: Path, sibling: Path, raw: bytes, file: bytes, stop: nat): (FileMap, bool) {
    var signature := Path(sibling.dir, sibling.name + ".sig");
    var one := files[sibling := raw];
    var two := one[signature := file];
    var three := two[out := raw];
    if stop == 0 || (sibling in files && files[sibling] != raw) then (files, false)
    else if stop == 1 || (signature in one && one[signature] != file) then (one, false)
    else if stop == 2 then (two, false)
    else if stop == 3 then (three, false)
    else (three[Path(out.dir, out.name + ".sig") := file], true)
  }

  lemma PreviousExact(files: FileMap, cmd: Command, previous: Option<bytes>)
    ensures PreviousBytes(files, cmd.previous) == Ok(previous) <==> Reads(files, cmd, previous)
  {
  }

  lemma LineWritten(c: Platform, files: FileMap, cmd: Command, previous: Option<bytes>, b: BuiltSnapshot)
    requires GoodConfig(cmd.config) && SnapshotFor(c, cmd.config, previous, cmd.at, cmd.key, cmd.disk) == Ok(b)
    ensures SignatureFile(b.raw).Some? && SignatureLine(c, cmd.key, b.raw, SignatureFile(b.raw).value)
  {
    var s := BuiltFields(c, cmd.config, previous, cmd.at, cmd.key, cmd.disk);
    var t := BuiltReadsBack(c, cmd.config, previous, cmd.at, cmd.key, cmd.disk);
    SnapshotHeld(Read(b.raw).value, s);
    assert Sized(c.sign(cmd.key, SigningBytes(b.raw).value), 64);
    DetachedText(b.raw, s.signature.value);
  }

  /** One more write: what it leaves, and whether it is refused. */
  lemma OneMoreWrite(files: FileMap, ws: seq<Write>, n: nat)
    requires 0 < n <= |ws|
    ensures var before, w := Perform(files, ws, n - 1), ws[n - 1];
            Perform(files, ws, n) ==
            if !before.1 then before
            else if w.Immutable? && w.path in before.0 && before.0[w.path] != w.content then (before.0, false)
            else (before.0[w.path := w.content], true)
  {
    var before, w := Perform(files, ws, n - 1).0, ws[n - 1];
    if w.path in before && w.Immutable? && before[w.path] == w.content { assert before[w.path := w.content] == before; }
  }

  lemma WritesLeft(files: FileMap, out: Path, id: bytes, n: nat, raw: bytes, file: bytes, stop: nat)
    ensures RunPlan(files, Some(Writes(out, id, n, raw, file)), stop) ==
            Left(files, out, Path(out.dir, id + "-" + Decimal(n) + ".json"), raw, file, stop)
  {
    var ws := Writes(out, id, n, raw, file);
    assert Perform(files, ws, 0) == (files, true);
    OneMoreWrite(files, ws, 1);
    OneMoreWrite(files, ws, 2);
    OneMoreWrite(files, ws, 3);
    OneMoreWrite(files, ws, 4);
  }

  lemma Planned(c: Platform, files: FileMap, cmd: Command, previous: Option<bytes>, b: BuiltSnapshot, file: bytes)
    requires PreviousBytes(files, cmd.previous) == Ok(previous) && SignatureFile(b.raw) == Some(file)
    requires SnapshotFor(c, cmd.config, previous, cmd.at, cmd.key, cmd.disk) == Ok(b)
    ensures Plan(c, files, cmd) == Some(Writes(cmd.out, cmd.config.catalogId, b.sequence as nat, b.raw, file))
  {
  }

  /**
   A command that can read and build, from start to end, stopped anywhere: it reads the previous snapshot that it names,
   builds on it what `BuildExact` says, and writes that and its signature to four files in order.
   */
  lemma CommandExact(c: Platform, files: FileMap, cmd: Command, previous: Option<bytes>, stop: nat)
    returns (b: BuiltSnapshot, file: bytes)
    requires GoodConfig(cmd.config) && Reads(files, cmd, previous)
    requires BuildFault(c, cmd.config, previous, cmd.at, cmd.disk) == None
    ensures PublishedAs(c, cmd.config, previous, cmd.at, cmd.disk, cmd.key, b) && SignatureLine(c, cmd.key, b.raw, file)
    ensures var sibling := Path(cmd.out.dir, cmd.config.catalogId + "-" + Decimal(b.sequence as nat) + ".json");
            RunCommand(c, files, cmd, stop) == Left(files, cmd.out, sibling, b.raw, file, stop)
  {
    PreviousExact(files, cmd, previous);
    BuildExact(c, cmd.config, previous, cmd.at, cmd.key, cmd.disk);
    b := SnapshotFor(c, cmd.config, previous, cmd.at, cmd.key, cmd.disk).value;
    LineWritten(c, files, cmd, previous, b);
    file := SignatureFile(b.raw).value;
    Planned(c, files, cmd, previous, b, file);
    WritesLeft(files, cmd.out, cmd.config.catalogId, b.sequence as nat, b.raw, file, stop);
  }

  /** A command that cannot read or build changes no file. */
  lemma NothingWritten(c: Platform, files: FileMap, cmd: Command, stop: nat)
    requires GoodConfig(cmd.config)
    requires forall previous | Reads(files, cmd, previous) :: BuildFault(c, cmd.config, previous, cmd.at, cmd.disk) != None
    ensures RunCommand(c, files, cmd, stop) == (files, false)
  {
    var r := PreviousBytes(files, cmd.previous);
    if r.Ok? {
      PreviousExact(files, cmd, r.value);
      BuiltOn(c, files, cmd, r.value);
      BuildExact(c, cmd.config, r.value, cmd.at, cmd.key, cmd.disk);
    }
  }
}
