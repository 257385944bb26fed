/** The published files: paths, writes that may be cut short, and the names of retention siblings. */
module Files {
  import opened Basics
  import opened Text

  datatype Path = Path(dir: bytes, name: bytes)
  type FileMap = map<Path, bytes>

  // ----- writes -----

  /** A write to a file that names one publication for ever, or to a file that is replaced. */
  datatype Write = Immutable(path: Path, content: bytes) | Overwrite(path: Path, content: bytes)

  predicate Refused(files: FileMap, w: Write) {
    w.Immutable? && w.path in files && files[w.path] != w.content
  }

  function Put(files: FileMap, w: Write): FileMap {
    if w.Immutable? && w.path in files then files else files[w.path := w.content]
  }

  /** The first `n` writes in order, up to the first that is refused; reports whether all were made. */
  function Perform(files: FileMap, ws: seq<Write>, n: nat): (FileMap, bool)
    requires n <= |ws|
  {
    if n == 0 then (files, true)
    else
      var (before, ok) := Perform(files, ws, n - 1);
      if !ok || Refused(before, ws[n - 1]) then (before, false) else (Put(before, ws[n - 1]), true)
  }

  class FileSystem {
    var files: FileMap

    constructor ()
      ensures files == map[]
    {
      files := map[];
    }

    /** Refuses to replace an existing file by different bytes; rewriting the same bytes changes nothing. */
    method WriteImmutable(path: Path, content: bytes) returns (ok: bool)
      modifies this
      ensures ok <==> !Refused(old(files), Immutable(path, content))
      ensures files == Put(old(files), Immutable(path, content))
      ensures ok ==> path in files && files[path] == content
      ensures !ok ==> files == old(files)
    {
      if path in files {
        return files[path] == content;
      }
      files := files[path := content];
      return true;
    }

    method WriteFile(path: Path, content: bytes)
      modifies this
      ensures files == Put(old(files), Overwrite(path, content))
    {
      files := files[path := content];
    }
  }

  /** An existing file that no write overwrites keeps its bytes, wherever the writes stop. */
  lemma {:induction false} PerformKeeps(files: FileMap, ws: seq<Write>, n: nat, p: Path)
    requires n <= |ws| && p in files && forall i | 0 <= i < n && ws[i].Overwrite? :: ws[i].path != p
    ensures p in Perform(files, ws, n).0 && Perform(files, ws, n).0[p] == files[p]
  {
    if n > 0 { PerformKeeps(files, ws, n - 1, p); }
  }

  // ----- names -----

  const JSON_SUFFIX: bytes := ".json"
  const SIG_SUFFIX: bytes := ".sig"

  function SigPath(p: Path): Path {
    Path(p.dir, p.name + SIG_SUFFIX)
  }

  function SiblingName(catalogId: bytes, sequence: nat): bytes {
    catalogId + "-" + Decimal(sequence) + JSON_SUFFIX
  }

  function Sibling(dir: bytes, catalogId: bytes, sequence: nat): Path {
    Path(dir, SiblingName(catalogId, sequence))
  }

  lemma SiblingSplit(a: bytes, m: nat, b: bytes, n: nat)
    requires SiblingName(a, m) == SiblingName(b, n)
    ensures |Decimal(m)| <= |Decimal(n)|
  {
    var name := SiblingName(b, n);
    if |Decimal(n)| < |Decimal(m)| {
      var i := |b|;
      assert name[i] == '-';
      var at := i - |a| - 1;
      assert SiblingName(a, m)[i] == Decimal(m)[at];
      assert IsDigit(Decimal(m)[at]) by { assert Decimal(m)[at] in Decimal(m); }
    }
  }

  /** A sibling's name determines its catalog and its sequence, whatever hyphens the catalog id has. */
  lemma SiblingNameInjective(a: bytes, m: nat, b: bytes, n: nat)
    ensures SiblingName(a, m) == SiblingName(b, n) <==> a == b && m == n
  {
    var s, t := SiblingName(a, m), SiblingName(b, n);
    if s == t {
      SiblingSplit(a, m, b, n);
      SiblingSplit(b, n, a, m);
      assert |a| == |b|;
      assert a == s[..|a|] && b == t[..|b|];
      assert Decimal(m) == s[|a| + 1..|s| - 5] && Decimal(n) == t[|b| + 1..|t| - 5];
      DecimalInjective(m, n);
    }
  }

  /** Some sibling has this name. */
  ghost predicate SiblingForm(name: bytes) {
    exists id, n: nat {:trigger SiblingName(id, n)} :: name == SiblingName(id, n)
  }

  /** A name for the latest file: neither a sibling nor a signature file. */
  ghost predicate LatestName(name: bytes) {
    !SiblingForm(name) && (|name| < 4 || name[|name| - 4..] != SIG_SUFFIX)
  }

  lemma SigPathInjective(p: Path, q: Path)
    ensures SigPath(p) == SigPath(q) <==> p == q
  {
    if SigPath(p).name == SigPath(q).name {
      assert |p.name| == |q.name|;
      assert p.name == SigPath(p).name[..|p.name|] && q.name == SigPath(q).name[..|q.name|];
    }
  }

  /** The names of the four files of a run never meet, except for equal names of one kind. */
  lemma NamesApart(out: Path, p: Path, id: bytes, n: nat)
    requires LatestName(out.name)
    ensures out != Sibling(p.dir, id, n) && out != SigPath(p)
    ensures SigPath(out) != Sibling(p.dir, id, n) && SigPath(out) != SigPath(Sibling(p.dir, id, n))
    ensures SigPath(p) != Sibling(p.dir, id, n) && SigPath(out) != out
  {
    assert SigPath(p).name[|p.name|..] == SIG_SUFFIX;
    var sib := SiblingName(id, n);
    assert sib[|sib| - 1] == 'n';
    assert SigPath(p).name[|SigPath(p).name| - 1] == 'g';
    assert SigPath(out).name[|SigPath(out).name| - 1] == 'g';
    SigPathInjective(out, Sibling(p.dir, id, n));
  }

  // ----- one run -----

  /** The four writes of a run, the sibling first. */
  function Writes(out: Path, id: bytes, n: nat, raw: bytes, sig: bytes): (ws: seq<Write>)
    ensures |ws| == 4
  {
    var sibling := Sibling(out.dir, id, n);
    [Immutable(sibling, raw), Immutable(SigPath(sibling), sig), Overwrite(out, raw), Overwrite(SigPath(out), sig)]
  }

  /** The first `count` of four writes replace the latest file. */
  ghost predicate Reached(files: FileMap, ws: seq<Write>, count: nat)
    requires count <= |ws| == 4
  {
    count >= 3 && Perform(files, ws, 3).1
  }

  /** A run stopped before its write number `stop` has replaced the latest file. */
  ghost predicate ReachedBy(files: FileMap, plan: Option<seq<Write>>, stop: nat) {
    plan.Some? && |plan.value| == 4 && Reached(files, plan.value, if stop < 4 then stop else 4)
  }

  /** The files after a run that is stopped before its write number `stop`, and whether it completed. */
  function RunPlan(files: FileMap, plan: Option<seq<Write>>, stop: nat): (FileMap, bool) {
    match plan
    case None => (files, false)
    case Some(ws) => if stop < |ws| then (Perform(files, ws, stop).0, false) else Perform(files, ws, |ws|)
  }

  /** A run never touches an existing file other than the latest file and its signature. */
  lemma RunKeeps(files: FileMap, out: Path, id: bytes, n: nat, raw: bytes, sig: bytes, count: nat, p: Path)
    requires count <= 4 && p in files && p != out && p != SigPath(out)
    ensures var after := Perform(files, Writes(out, id, n, raw, sig), count).0; p in after && after[p] == files[p]
  {
    PerformKeeps(files, Writes(out, id, n, raw, sig), count, p);
  }

  /** How published bytes identify themselves: catalog and sequence, and the signature file that goes with them. */
  datatype Labels = Labels(heading: bytes -> Option<(bytes, nat)>, signature: bytes -> Option<bytes>)

  ghost predicate SiblingsNamed(files: FileMap, k: Labels) {
    forall dir, id, n: nat {:trigger Sibling(dir, id, n)} | Sibling(dir, id, n) in files ::
      k.heading(files[Sibling(dir, id, n)]) == Some((id, n))
  }

  ghost predicate SiblingsSigned(files: FileMap, k: Labels) {
    forall dir, id, n: nat {:trigger SigPath(Sibling(dir, id, n))} | SigPath(Sibling(dir, id, n)) in files ::
      && Sibling(dir, id, n) in files
      && k.signature(files[Sibling(dir, id, n)]) == Some(files[SigPath(Sibling(dir, id, n))])
  }

  /** The latest file is a copy of the sibling of its own catalog and sequence. */
  ghost predicate CopiesSibling(files: FileMap, out: Path, k: Labels)
    requires out in files
  {
    var heading := k.heading(files[out]);
    && heading.Some?
    && var sibling := Sibling(out.dir, heading.value.0, heading.value.1);
       sibling in files && files[sibling] == files[out]
  }

  /** Every sibling is what its name says, signature files belong to their sibling, latest files are copies. */
  ghost predicate Recorded(files: FileMap, outs: set<Path>, k: Labels) {
    && SiblingsNamed(files, k) && SiblingsSigned(files, k)
    && (forall o {:trigger o in outs} | o in outs :: LatestName(o.name))
    && forall o {:trigger o in outs} | o in outs && o in files :: CopiesSibling(files, o, k)
  }

  lemma CopyKept(files: FileMap, after: FileMap, o: Path, k: Labels)
    requires o in files && CopiesSibling(files, o, k) && o in after && after[o] == files[o]
    requires forall dir, id, n: nat {:trigger Sibling(dir, id, n)} | Sibling(dir, id, n) in files ::
               Sibling(dir, id, n) in after && after[Sibling(dir, id, n)] == files[Sibling(dir, id, n)]
    ensures CopiesSibling(after, o, k)
  {
  }

  lemma AfterSibling(files: FileMap, outs: set<Path>, k: Labels, dir: bytes, id: bytes, n: nat, raw: bytes)
    requires Recorded(files, outs, k) && !Refused(files, Immutable(Sibling(dir, id, n), raw))
    requires k.heading(raw) == Some((id, n))
    ensures Recorded(Put(files, Immutable(Sibling(dir, id, n), raw)), outs, k)
  {
    var sibling := Sibling(dir, id, n);
    var after := Put(files, Immutable(sibling, raw));
    forall d, i, m: nat {:trigger Sibling(d, i, m)} | Sibling(d, i, m) in after
      ensures k.heading(after[Sibling(d, i, m)]) == Some((i, m))
    {
      SiblingNameInjective(i, m, id, n);
    }
    forall d, i, m: nat {:trigger SigPath(Sibling(d, i, m))} | SigPath(Sibling(d, i, m)) in after
      ensures Sibling(d, i, m) in after && k.signature(after[Sibling(d, i, m)]) == Some(after[SigPath(Sibling(d, i, m))])
    {
      SigIsNoSibling(Sibling(d, i, m), dir, id, n);
    }
    forall o {:trigger o in outs} | o in outs && o in after ensures CopiesSibling(after, o, k) {
      NamesApart(o, Path(dir, []), id, n);
      CopyKept(files, after, o, k);
    }
  }

  lemma SigIsNoSibling(p: Path, dir: bytes, id: bytes, n: nat)
    ensures SigPath(p) != Sibling(dir, id, n)
  {
    assert SigPath(p).name[|SigPath(p).name| - 1] == 'g';
    var sib := SiblingName(id, n);
    assert sib[|sib| - 1] == 'n';
  }

  lemma AfterSiblingSig(files: FileMap, outs: set<Path>, k: Labels, dir: bytes, id: bytes, n: nat, sig: bytes)
    requires Recorded(files, outs, k) && Sibling(dir, id, n) in files
    requires k.signature(files[Sibling(dir, id, n)]) == Some(sig)
    ensures !Refused(files, Immutable(SigPath(Sibling(dir, id, n)), sig))
    ensures Recorded(Put(files, Immutable(SigPath(Sibling(dir, id, n)), sig)), outs, k)
  {
    var path := SigPath(Sibling(dir, id, n));
    var after := Put(files, Immutable(path, sig));
    forall d, i, m: nat {:trigger Sibling(d, i, m)} ensures Sibling(d, i, m) != path {
      SigIsNoSibling(Sibling(dir, id, n), d, i, m);
    }
    forall d, i, m: nat {:trigger SigPath(Sibling(d, i, m))} | SigPath(Sibling(d, i, m)) in after
      ensures Sibling(d, i, m) in after && k.signature(after[Sibling(d, i, m)]) == Some(after[SigPath(Sibling(d, i, m))])
    {
      SigPathInjective(Sibling(d, i, m), Sibling(dir, id, n));
    }
    forall o {:trigger o in outs} | o in outs && o in after ensures CopiesSibling(after, o, k) {
      NamesApart(o, Sibling(dir, id, n), id, n);
      CopyKept(files, after, o, k);
    }
  }

  lemma AfterLatest(files: FileMap, outs: set<Path>, k: Labels, out: Path, id: bytes, n: nat, raw: bytes)
    requires Recorded(files, outs, k) && out in outs && k.heading(raw) == Some((id, n))
    requires Sibling(out.dir, id, n) in files && files[Sibling(out.dir, id, n)] == raw
    ensures Recorded(Put(files, Overwrite(out, raw)), outs, k)
  {
    var after := Put(files, Overwrite(out, raw));
    forall d, i, m: nat {:trigger Sibling(d, i, m)} ensures Sibling(d, i, m) != out {
      NamesApart(out, Path(d, []), i, m);
    }
    forall d, i, m: nat {:trigger SigPath(Sibling(d, i, m))} ensures SigPath(Sibling(d, i, m)) != out {
      NamesApart(out, Sibling(d, i, m), i, m);
    }
    forall o {:trigger o in outs} | o in outs && o in after ensures CopiesSibling(after, o, k) {
      if o != out { CopyKept(files, after, o, k); }
    }
  }

  lemma AfterLatestSig(files: FileMap, outs: set<Path>, k: Labels, out: Path, sig: bytes)
    requires Recorded(files, outs, k) && out in outs
    ensures Recorded(Put(files, Overwrite(SigPath(out), sig)), outs, k)
  {
    var after := Put(files, Overwrite(SigPath(out), sig));
    forall d, i, m: nat {:trigger Sibling(d, i, m)} ensures Sibling(d, i, m) != SigPath(out) {
      SigIsNoSibling(out, d, i, m);
    }
    forall d, i, m: nat {:trigger SigPath(Sibling(d, i, m))} ensures SigPath(Sibling(d, i, m)) != SigPath(out) {
      NamesApart(out, Path(d, []), i, m);
    }
    forall o {:trigger o in outs} | o in outs && o in after ensures CopiesSibling(after, o, k) {
      NamesApart(o, out, [], 0);
      CopyKept(files, after, o, k);
    }
  }

  /** Wherever a run stops, the record is kept; and only a sibling with different bytes can refuse it. */
  lemma RunRecorded(files: FileMap, outs: set<Path>, k: Labels, out: Path, id: bytes, n: nat, raw: bytes, sig: bytes,
                    count: nat)
    requires Recorded(files, outs, k) && out in outs && count <= 4
    requires k.heading(raw) == Some((id, n)) && k.signature(raw) == Some(sig)
    ensures Recorded(Perform(files, Writes(out, id, n, raw, sig), count).0, outs, k)
    ensures Perform(files, Writes(out, id, n, raw, sig), count).1 <==>
            count == 0 || !Refused(files, Immutable(Sibling(out.dir, id, n), raw))
  {
    var ws := Writes(out, id, n, raw, sig);
    if count > 0 && !Refused(files, ws[0]) {
      var f1 := Put(files, ws[0]);
      AfterSibling(files, outs, k, out.dir, id, n, raw);
      assert Perform(files, ws, 0) == (files, true);
      assert Perform(files, ws, 1) == (f1, true);
      AfterSiblingSig(f1, outs, k, out.dir, id, n, sig);
      SigIsNoSibling(Sibling(out.dir, id, n), out.dir, id, n);
      var f2 := Put(f1, ws[1]);
      assert Perform(files, ws, 2) == (f2, true);
      AfterLatest(f2, outs, k, out, id, n, raw);
      var f3 := Put(f2, ws[2]);
      assert Perform(files, ws, 3) == (f3, true);
      AfterLatestSig(f3, outs, k, out, sig);
      assert Perform(files, ws, 4) == (Put(f3, ws[3]), true);
    } else {
      RefusedAtOnce(files, ws, count);
    }
  }

  lemma PlanRecorded(files: FileMap, plan: Option<seq<Write>>, stop: nat, outs: set<Path>, k: Labels, out: Path,
                     id: bytes, n: nat, raw: bytes, sig: bytes)
    requires Recorded(files, outs, k) && out in outs && plan == Some(Writes(out, id, n, raw, sig))
    requires k.heading(raw) == Some((id, n)) && k.signature(raw) == Some(sig)
    ensures Recorded(RunPlan(files, plan, stop).0, outs, k)
  {
    RunRecorded(files, outs, k, out, id, n, raw, sig, if stop < 4 then stop else 4);
  }

  lemma PlanRefused(files: FileMap, plan: Option<seq<Write>>, stop: nat, outs: set<Path>, k: Labels, out: Path,
                    id: bytes, n: nat, raw: bytes, sig: bytes)
    requires Recorded(files, outs, k) && out in outs && plan == Some(Writes(out, id, n, raw, sig)) && stop >= 4
    requires k.heading(raw) == Some((id, n)) && k.signature(raw) == Some(sig)
    ensures RunPlan(files, plan, stop).1 <==> !Refused(files, Immutable(Sibling(out.dir, id, n), raw))
    ensures !RunPlan(files, plan, stop).1 ==> RunPlan(files, plan, stop).0 == files
  {
    RunRecorded(files, outs, k, out, id, n, raw, sig, 4);
    var ws := Writes(out, id, n, raw, sig);
    if Refused(files, ws[0]) { RefusedAtOnce(files, ws, 4); }
  }

  lemma {:induction false} RefusedAtOnce(files: FileMap, ws: seq<Write>, n: nat)
    requires n <= |ws| && (n > 0 ==> Refused(files, ws[0]))
    ensures Perform(files, ws, n) == (files, n == 0)
  {
    if n > 0 { RefusedAtOnce(files, ws, n - 1); }
  }

  // ----- the chain of siblings behind a latest file -----

  ghost predicate Stored(files: FileMap, p: Path, content: bytes) {
    p in files && files[p] == content
  }

  /** The siblings 1 to |h| hold the history `h`, and the latest file, if any, is the last of them. */
  ghost predicate Serves(files: FileMap, out: Path, id: bytes, h: seq<bytes>) {
    && (out in files <==> h != []) && (h != [] ==> files[out] == h[|h| - 1])
    && forall i {:trigger h[i]} | 0 <= i < |h| :: Stored(files, Sibling(out.dir, id, i + 1), h[i])
  }

  lemma SiblingsKept(files: FileMap, out: Path, id: bytes, n: nat, raw: bytes, sig: bytes, count: nat, i: nat,
                     content: bytes)
    requires LatestName(out.name) && count <= 4 && Stored(files, Sibling(out.dir, id, i), content)
    ensures Stored(Perform(files, Writes(out, id, n, raw, sig), count).0, Sibling(out.dir, id, i), content)
  {
    NamesApart(out, Path(out.dir, []), id, i);
    RunKeeps(files, out, id, n, raw, sig, count, Sibling(out.dir, id, i));
  }

  /** A run for the next sequence lengthens the history once it reaches the latest file, and otherwise keeps it. */
  lemma RunServes(files: FileMap, out: Path, id: bytes, h: seq<bytes>, raw: bytes, sig: bytes, count: nat)
    requires Serves(files, out, id, h) && LatestName(out.name) && count <= 4
    ensures var ws := Writes(out, id, |h| + 1, raw, sig);
            Serves(Perform(files, ws, count).0, out, id, if Reached(files, ws, count) then h + [raw] else h)
  {
    var ws := Writes(out, id, |h| + 1, raw, sig);
    var after := Perform(files, ws, count).0;
    forall i {:trigger h[i]} | 0 <= i < |h| ensures Stored(after, Sibling(out.dir, id, i + 1), h[i]) {
      assert Stored(files, Sibling(out.dir, id, i + 1), h[i]);
      SiblingsKept(files, out, id, |h| + 1, raw, sig, count, i + 1, h[i]);
    }
    NamesApart(out, Sibling(out.dir, id, |h| + 1), id, |h| + 1);
    if count >= 3 && Perform(files, ws, 3).1 {
      LatestReached(files, ws, out, Sibling(out.dir, id, |h| + 1), raw, count);
      Lengthened(after, out, id, h, raw);
    } else {
      LatestUntouched(files, ws, out, count);
    }
  }

  lemma PlanServes(files: FileMap, plan: Option<seq<Write>>, stop: nat, out: Path, id: bytes, h: seq<bytes>, raw: bytes,
                   sig: bytes)
    requires Serves(files, out, id, h) && LatestName(out.name) && plan == Some(Writes(out, id, |h| + 1, raw, sig))
    ensures Serves(RunPlan(files, plan, stop).0, out, id, if ReachedBy(files, plan, stop) then h + [raw] else h)
  {
    RunServes(files, out, id, h, raw, sig, if stop < 4 then stop else 4);
  }

  lemma Lengthened(files: FileMap, out: Path, id: bytes, h: seq<bytes>, raw: bytes)
    requires Stored(files, out, raw) && Stored(files, Sibling(out.dir, id, |h| + 1), raw)
    requires forall i {:trigger h[i]} | 0 <= i < |h| :: Stored(files, Sibling(out.dir, id, i + 1), h[i])
    ensures Serves(files, out, id, h + [raw])
  {
    var g := h + [raw];
    forall i {:trigger g[i]} | 0 <= i < |g| ensures Stored(files, Sibling(out.dir, id, i + 1), g[i]) {
      if i < |h| { assert g[i] == h[i]; }
    }
    assert g[|g| - 1] == raw;
  }

  lemma LatestReached(files: FileMap, ws: seq<Write>, out: Path, sibling: Path, raw: bytes, count: nat)
    requires |ws| == 4 && ws[0] == Immutable(sibling, raw) && ws[1].Immutable? && ws[2] == Overwrite(out, raw)
    requires ws[3].Overwrite? && out != sibling && ws[3].path != out && ws[3].path != sibling
    requires 3 <= count <= 4 && Perform(files, ws, 3).1
    ensures var after := Perform(files, ws, count).0; out in after && after[out] == raw && sibling in after && after[sibling] == raw
  {
    assert Perform(files, ws, 2).1 && Perform(files, ws, 1).1;
    assert Perform(files, ws, 1).0 == Put(files, ws[0]);
    assert Perform(files, ws, 2).0 == Put(Put(files, ws[0]), ws[1]);
    assert Perform(files, ws, 3).0 == Put(Put(Put(files, ws[0]), ws[1]), ws[2]);
  }

  lemma LatestUntouched(files: FileMap, ws: seq<Write>, out: Path, count: nat)
    requires |ws| == 4 && ws[0].path != out && ws[1].path != out && ws[3].path != out && count <= 4
    requires ws[2].Overwrite? && (count >= 3 ==> !Perform(files, ws, 3).1)
    ensures var after := Perform(files, ws, count).0; (out in after <==> out in files) && (out in files ==> after[out] == files[out])
  {
    assert Perform(files, ws, 0).0 == files;
    var f1, f2 := Perform(files, ws, 1).0, Perform(files, ws, 2).0;
    assert (out in f1 <==> out in files) && (out in files ==> f1[out] == files[out]);
    assert (out in f2 <==> out in files) && (out in files ==> f2[out] == files[out]);
    if count >= 3 {
      assert !Perform(files, ws, 2).1 && Perform(files, ws, 3) == (f2, false);
    }
  }
}
