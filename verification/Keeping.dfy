/** What a run changes among the files already published, and exactly when it spares a sibling. */
module Keeping {
  import opened Basics
  import opened Files

  /** A file keeps its bytes when every write to it is refused or writes the same bytes. */
  lemma {:induction false} PerformSame(files: FileMap, ws: seq<Write>, n: nat, p: Path, content: bytes)
    requires n <= |ws| && Stored(files, p, content)
    requires forall i | 0 <= i < n && ws[i].path == p :: ws[i].Immutable? || ws[i].content == content
    ensures Stored(Perform(files, ws, n).0, p, content)
  {
    if n > 0 { PerformSame(files, ws, n - 1, p, content); }
  }

  /** A file that no write names keeps its state, present or absent. */
  lemma {:induction false} PerformFrame(files: FileMap, ws: seq<Write>, n: nat, p: Path)
    requires n <= |ws| && forall i | 0 <= i < n :: ws[i].path != p
    ensures SameAt(files, Perform(files, ws, n).0, p)
  {
    if n > 0 { PerformFrame(files, ws, n - 1, p); }
  }

  ghost predicate SameAt(files: FileMap, after: FileMap, p: Path) {
    (p in after <==> p in files) && (p in files ==> after[p] == files[p])
  }

  lemma ReachedState(files: FileMap, out: Path, id: bytes, n: nat, raw: bytes, sig: bytes, count: nat)
    requires count <= 4 && Reached(files, Writes(out, id, n, raw, sig), count)
    ensures Stored(Perform(files, Writes(out, id, n, raw, sig), count).0, out, raw)
    ensures count == 4 ==> Stored(Perform(files, Writes(out, id, n, raw, sig), count).0, SigPath(out), sig)
  {
    var ws := Writes(out, id, n, raw, sig);
    assert |SigPath(out).name| == |out.name| + 4;
    assert Perform(files, ws, 3).0 == Put(Perform(files, ws, 2).0, ws[2]);
    if count == 4 { assert Perform(files, ws, 4).0 == Put(Perform(files, ws, 3).0, ws[3]); }
  }

  /** Until it replaces the latest file, a run has only added files. */
  lemma UnreachedState(files: FileMap, out: Path, id: bytes, n: nat, raw: bytes, sig: bytes, count: nat)
    returns (k: nat)
    requires count <= 4 && !Reached(files, Writes(out, id, n, raw, sig), count)
    ensures k <= 2 && Perform(files, Writes(out, id, n, raw, sig), count).0 == Perform(files, Writes(out, id, n, raw, sig), k).0
  {
    var ws := Writes(out, id, n, raw, sig);
    k := if count < 3 then count else 2;
    if count >= 3 {
      assert !Perform(files, ws, 2).1 && Perform(files, ws, 3) == (Perform(files, ws, 2).0, false);
    }
  }

  // ----- siblings and their signatures -----

  /** The output has the name of this sibling only if it is the sibling that the run itself publishes. */
  predicate OwnName(out: Path, id: bytes, n: nat, dir: bytes, i: bytes, m: nat) {
    out == Sibling(dir, i, m) ==> i == id && m == n
  }

  /** Neither this sibling nor its signature file is named as the output of another publication. */
  predicate Spares(out: Path, id: bytes, n: nat, dir: bytes, i: bytes, m: nat) {
    OwnName(out, id, n, dir, i, m) && out != SigPath(Sibling(dir, i, m))
  }

  lemma SiblingSpared(files: FileMap, out: Path, id: bytes, n: nat, raw: bytes, sig: bytes, count: nat, dir: bytes,
                      i: bytes, m: nat, content: bytes)
    requires count <= 4 && OwnName(out, id, n, dir, i, m) && Stored(files, Sibling(dir, i, m), content)
    ensures Stored(Perform(files, Writes(out, id, n, raw, sig), count).0, Sibling(dir, i, m), content)
  {
    var ws := Writes(out, id, n, raw, sig);
    SigIsNoSibling(out, dir, i, m);
    SigIsNoSibling(Sibling(out.dir, id, n), dir, i, m);
    if out == Sibling(dir, i, m) && content != raw {
      RefusedAtOnce(files, ws, count);
    } else {
      PerformSame(files, ws, count, Sibling(dir, i, m), content);
    }
  }

  lemma SignatureSpared(files: FileMap, out: Path, id: bytes, n: nat, raw: bytes, sig: bytes, count: nat, dir: bytes,
                        i: bytes, m: nat, content: bytes)
    requires count <= 4 && Spares(out, id, n, dir, i, m) && Stored(files, SigPath(Sibling(dir, i, m)), content)
    ensures Stored(Perform(files, Writes(out, id, n, raw, sig), count).0, SigPath(Sibling(dir, i, m)), content)
  {
    var ws, p := Writes(out, id, n, raw, sig), SigPath(Sibling(dir, i, m));
    SigPathInjective(out, Sibling(dir, i, m));
    SigIsNoSibling(Sibling(dir, i, m), out.dir, id, n);
    if out == Sibling(dir, i, m) && content != sig {
      SecondRefused(files, ws, count, p, content);
    } else {
      PerformSame(files, ws, count, p, content);
    }
  }

  lemma SecondRefused(files: FileMap, ws: seq<Write>, count: nat, p: Path, content: bytes)
    requires count <= |ws| == 4 && Stored(files, p, content) && ws[0].path != p
    requires ws[1].Immutable? && ws[1].path == p && ws[1].content != content
    ensures Stored(Perform(files, ws, count).0, p, content)
  {
    PerformSame(files, ws, 1, p, content);
    var f := Perform(files, ws, 1).0;
    assert Perform(files, ws, 2) == (f, false);
    assert Perform(files, ws, 3) == (f, false) && Perform(files, ws, 4) == (f, false);
    if count == 0 { PerformSame(files, ws, 0, p, content); }
  }

  lemma UnreachedKeeps(files: FileMap, out: Path, id: bytes, n: nat, raw: bytes, sig: bytes, count: nat, p: Path)
    requires count <= 4 && p in files && !Reached(files, Writes(out, id, n, raw, sig), count)
    ensures Stored(Perform(files, Writes(out, id, n, raw, sig), count).0, p, files[p])
  {
    var k := UnreachedState(files, out, id, n, raw, sig, count);
    PerformSame(files, Writes(out, id, n, raw, sig), k, p, files[p]);
  }

  /**
   Exactly when a run spares a sibling, in terms of names and numbers known before it starts: unless it replaces
   the latest file and that has the sibling's name, for another catalog or another sequence than the run's own.
   */
  lemma SiblingKeptExact(files: FileMap, k: Labels, out: Path, id: bytes, n: nat, raw: bytes, sig: bytes, count: nat,
                         dir: bytes, i: bytes, m: nat)
    requires SiblingsNamed(files, k) && k.heading(raw) == Some((id, n)) && Sibling(dir, i, m) in files && count <= 4
    ensures Stored(Perform(files, Writes(out, id, n, raw, sig), count).0, Sibling(dir, i, m), files[Sibling(dir, i, m)]) <==>
            (Reached(files, Writes(out, id, n, raw, sig), count) ==> OwnName(out, id, n, dir, i, m))
  {
    var p := Sibling(dir, i, m);
    if !Reached(files, Writes(out, id, n, raw, sig), count) {
      UnreachedKeeps(files, out, id, n, raw, sig, count, p);
    } else if OwnName(out, id, n, dir, i, m) {
      SiblingSpared(files, out, id, n, raw, sig, count, dir, i, m, files[p]);
    } else {
      ReachedState(files, out, id, n, raw, sig, count);
    }
  }

  /** Exactly when a run spares a sibling and its signature file, which is no snapshot itself. */
  lemma PairKeptExact(files: FileMap, k: Labels, out: Path, id: bytes, n: nat, raw: bytes, sig: bytes, count: nat,
                      dir: bytes, i: bytes, m: nat)
    requires SiblingsNamed(files, k) && k.heading(raw) == Some((id, n)) && Sibling(dir, i, m) in files && count <= 4
    requires SigPath(Sibling(dir, i, m)) in files && k.heading(files[SigPath(Sibling(dir, i, m))]) == None
    ensures var after := Perform(files, Writes(out, id, n, raw, sig), count).0;
            && Stored(after, Sibling(dir, i, m), files[Sibling(dir, i, m)])
            && Stored(after, SigPath(Sibling(dir, i, m)), files[SigPath(Sibling(dir, i, m))]) <==>
            (Reached(files, Writes(out, id, n, raw, sig), count) ==> Spares(out, id, n, dir, i, m))
  {
    var p := SigPath(Sibling(dir, i, m));
    SiblingKeptExact(files, k, out, id, n, raw, sig, count, dir, i, m);
    if !Reached(files, Writes(out, id, n, raw, sig), count) {
      UnreachedKeeps(files, out, id, n, raw, sig, count, p);
    } else if Spares(out, id, n, dir, i, m) {
      SignatureSpared(files, out, id, n, raw, sig, count, dir, i, m, files[p]);
    } else if OwnName(out, id, n, dir, i, m) {
      ReachedState(files, out, id, n, raw, sig, count);
    }
  }

  lemma PlanKeptExact(files: FileMap, k: Labels, plan: Option<seq<Write>>, stop: nat, out: Path, id: bytes, n: nat,
                      raw: bytes, sig: bytes, dir: bytes, i: bytes, m: nat)
    requires plan == Some(Writes(out, id, n, raw, sig)) && k.heading(raw) == Some((id, n))
    requires SiblingsNamed(files, k) && Sibling(dir, i, m) in files
    requires var p := SigPath(Sibling(dir, i, m)); p in files ==> k.heading(files[p]) == None
    ensures Stored(RunPlan(files, plan, stop).0, Sibling(dir, i, m), files[Sibling(dir, i, m)]) <==>
            (ReachedBy(files, plan, stop) ==> OwnName(out, id, n, dir, i, m))
    ensures SigPath(Sibling(dir, i, m)) in files ==>
              (PairStored(files, RunPlan(files, plan, stop).0, Sibling(dir, i, m)) <==>
               (ReachedBy(files, plan, stop) ==> Spares(out, id, n, dir, i, m)))
  {
    var count := if stop < 4 then stop else 4;
    SiblingKeptExact(files, k, out, id, n, raw, sig, count, dir, i, m);
    if SigPath(Sibling(dir, i, m)) in files { PairKeptExact(files, k, out, id, n, raw, sig, count, dir, i, m); }
  }

  /** A file and its signature file are still as they were. */
  ghost predicate PairStored(files: FileMap, after: FileMap, p: Path)
    requires p in files && SigPath(p) in files
  {
    Stored(after, p, files[p]) && Stored(after, SigPath(p), files[SigPath(p)])
  }

  lemma PlanSpares(files: FileMap, plan: Option<seq<Write>>, stop: nat, out: Path, id: bytes, n: nat, raw: bytes, sig: bytes,
                   dir: bytes, i: bytes, m: nat, p: Path)
    requires plan == Some(Writes(out, id, n, raw, sig)) && p in files && OwnName(out, id, n, dir, i, m)
    requires p == Sibling(dir, i, m) || (p == SigPath(Sibling(dir, i, m)) && out != p)
    ensures Stored(RunPlan(files, plan, stop).0, p, files[p])
  {
    var count := if stop < 4 then stop else 4;
    if p == Sibling(dir, i, m) {
      SiblingSpared(files, out, id, n, raw, sig, count, dir, i, m, files[p]);
    } else {
      SignatureSpared(files, out, id, n, raw, sig, count, dir, i, m, files[p]);
    }
  }

  // ----- the latest file and its signature -----

  ghost predicate LatestSigned(files: FileMap, out: Path, k: Labels) {
    out in files ==> SigPath(out) in files && k.signature(files[out]) == Some(files[SigPath(out)])
  }

  /** A run leaves the other latest files, and its own until it reaches it, together with their signatures. */
  lemma LatestUnchanged(files: FileMap, out: Path, id: bytes, n: nat, raw: bytes, sig: bytes, count: nat, o: Path)
    requires count <= 4 && LatestName(out.name) && LatestName(o.name)
    requires o != out || !Reached(files, Writes(out, id, n, raw, sig), count)
    ensures SameAt(files, Perform(files, Writes(out, id, n, raw, sig), count).0, o)
    ensures SameAt(files, Perform(files, Writes(out, id, n, raw, sig), count).0, SigPath(o))
  {
    var ws := Writes(out, id, n, raw, sig);
    NamesApart(o, Sibling(out.dir, id, n), id, n);
    NamesApart(o, out, id, n);
    NamesApart(out, o, id, n);
    SigPathInjective(o, out);
    var k := count;
    if o == out { k := UnreachedState(files, out, id, n, raw, sig, count); }
    PerformFrame(files, ws, k, o);
    PerformFrame(files, ws, k, SigPath(o));
  }

  /** A run that stops just after replacing the latest file leaves the signature file of what was there before. */
  lemma LatestTorn(files: FileMap, out: Path, id: bytes, n: nat, raw: bytes, sig: bytes)
    requires LatestName(out.name) && Reached(files, Writes(out, id, n, raw, sig), 3)
    ensures Stored(Perform(files, Writes(out, id, n, raw, sig), 3).0, out, raw)
    ensures SameAt(files, Perform(files, Writes(out, id, n, raw, sig), 3).0, SigPath(out))
  {
    NamesApart(out, Sibling(out.dir, id, n), id, n);
    ReachedState(files, out, id, n, raw, sig, 3);
    PerformFrame(files, Writes(out, id, n, raw, sig), 3, SigPath(out));
  }

  /** What a run does to the pair of a latest file and its signature. */
  lemma PlanLatest(files: FileMap, plan: Option<seq<Write>>, stop: nat, out: Path, id: bytes, n: nat, raw: bytes,
                   sig: bytes, o: Path, k: Labels)
    requires plan == Some(Writes(out, id, n, raw, sig)) && LatestName(out.name) && LatestName(o.name)
    requires k.signature(raw) == Some(sig)
    ensures o != out || !ReachedBy(files, plan, stop) ==>
              SameAt(files, RunPlan(files, plan, stop).0, o) && SameAt(files, RunPlan(files, plan, stop).0, SigPath(o))
    ensures o == out && ReachedBy(files, plan, stop) ==> Stored(RunPlan(files, plan, stop).0, out, raw)
    ensures o == out && ReachedBy(files, plan, stop) && stop >= 4 ==> LatestSigned(RunPlan(files, plan, stop).0, out, k)
    ensures o == out && ReachedBy(files, plan, stop) && stop < 4 ==> SameAt(files, RunPlan(files, plan, stop).0, SigPath(out))
  {
    var count := if stop < 4 then stop else 4;
    if o != out || !ReachedBy(files, plan, stop) {
      LatestUnchanged(files, out, id, n, raw, sig, count, o);
    } else {
      ReachedState(files, out, id, n, raw, sig, count);
      if stop < 4 { LatestTorn(files, out, id, n, raw, sig); }
    }
  }

  // ----- runs for other outputs -----

  /** A run for another output, of any catalog, leaves what this latest file and its siblings serve as it is. */
  lemma ServesAside(files: FileMap, plan: Option<seq<Write>>, stop: nat, other: Path, i: bytes, n: nat, raw: bytes,
                    sig: bytes, out: Path, id: bytes, h: seq<bytes>)
    requires plan == Some(Writes(other, i, n, raw, sig)) && Serves(files, out, id, h)
    requires LatestName(out.name) && LatestName(other.name) && other != out
    ensures Serves(RunPlan(files, plan, stop).0, out, id, h)
  {
    var count := if stop < 4 then stop else 4;
    var after := Perform(files, Writes(other, i, n, raw, sig), count).0;
    LatestUnchanged(files, other, i, n, raw, sig, count, out);
    forall k {:trigger h[k]} | 0 <= k < |h| ensures Stored(after, Sibling(out.dir, id, k + 1), h[k]) {
      assert Stored(files, Sibling(out.dir, id, k + 1), h[k]);
      SiblingBeside(files, other, i, n, raw, sig, count, out.dir, id, k + 1, h[k]);
    }
  }

  lemma SiblingBeside(files: FileMap, other: Path, i: bytes, n: nat, raw: bytes, sig: bytes, count: nat, dir: bytes,
                      id: bytes, m: nat, content: bytes)
    requires LatestName(other.name) && count <= 4 && Stored(files, Sibling(dir, id, m), content)
    ensures Stored(Perform(files, Writes(other, i, n, raw, sig), count).0, Sibling(dir, id, m), content)
  {
    NamesApart(other, Path(dir, []), id, m);
    SiblingSpared(files, other, i, n, raw, sig, count, dir, id, m, content);
  }

  // ----- runs for a sequence that is published already -----

  /** With the record kept, a run reaches the latest file exactly when its sibling does not refuse it. */
  lemma ReachedExact(files: FileMap, plan: Option<seq<Write>>, stop: nat, outs: set<Path>, k: Labels, out: Path,
                     id: bytes, n: nat, raw: bytes, sig: bytes)
    requires Recorded(files, outs, k) && out in outs && plan == Some(Writes(out, id, n, raw, sig))
    requires k.heading(raw) == Some((id, n)) && k.signature(raw) == Some(sig)
    ensures ReachedBy(files, plan, stop) <==> stop >= 3 && !Refused(files, Immutable(Sibling(out.dir, id, n), raw))
  {
    RunRecorded(files, outs, k, out, id, n, raw, sig, 3);
  }

  /** Published again, sequence `n` is the latest once more: the store serves the first `n` publications. */
  lemma ServesAgain(files: FileMap, plan: Option<seq<Write>>, stop: nat, out: Path, id: bytes, h: seq<bytes>, n: nat,
                    sig: bytes)
    requires Serves(files, out, id, h) && LatestName(out.name) && 1 <= n <= |h|
    requires plan == Some(Writes(out, id, n, h[n - 1], sig)) && ReachedBy(files, plan, stop)
    ensures Serves(RunPlan(files, plan, stop).0, out, id, h[..n])
  {
    var count, g := if stop < 4 then stop else 4, h[..n];
    var after := Perform(files, Writes(out, id, n, h[n - 1], sig), count).0;
    ReachedState(files, out, id, n, h[n - 1], sig, count);
    forall k {:trigger g[k]} | 0 <= k < |g| ensures Stored(after, Sibling(out.dir, id, k + 1), g[k]) {
      assert g[k] == h[k] && Stored(files, Sibling(out.dir, id, k + 1), h[k]);
      SiblingBeside(files, out, id, n, h[n - 1], sig, count, out.dir, id, k + 1, h[k]);
    }
  }
}
