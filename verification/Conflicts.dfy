/** Conflicting digests: within one provider (equivocation) and between two sources. */
module Conflicts {
  import opened Basics
  import opened Documents
  import opened Signing
  import opened Verify
  import Timestamps

  /** Somewhere in the entry sets, `id` is bound to `digest`. */
  ghost predicate Binds(sets: seq<seq<CatalogEntry>>, id: bytes, digest: bytes) {
    exists i, j :: 0 <= i < |sets| && 0 <= j < |sets[i]| && BindsAt(sets, i, j, id, digest)
  }

  ghost predicate BindsAt(sets: seq<seq<CatalogEntry>>, i: nat, j: nat, id: bytes, digest: bytes)
    requires i < |sets| && j < |sets[i]|
  {
    sets[i][j].componentId == id && sets[i][j].manifest.digest == digest
  }

  /** The specification: at least two different digests are bound to `id`. */
  ghost predicate Conflicted(sets: seq<seq<CatalogEntry>>, id: bytes) {
    exists d, e :: d != e && Binds(sets, id, d) && Binds(sets, id, e)
  }

  /** The bindings of a flat list of entries. */
  ghost predicate BoundIn(entries: seq<CatalogEntry>, id: bytes, digest: bytes) {
    exists k :: 0 <= k < |entries| && entries[k].componentId == id && entries[k].manifest.digest == digest
  }

  ghost predicate TwiceBound(entries: seq<CatalogEntry>, id: bytes) {
    exists d, e :: d != e && BoundIn(entries, id, d) && BoundIn(entries, id, e)
  }

  function Flatten(sets: seq<seq<CatalogEntry>>, n: nat): seq<CatalogEntry>
    requires n <= |sets|
  {
    if n == 0 then [] else Flatten(sets, n - 1) + sets[n - 1]
  }

  lemma {:induction false} FlattenBinds(sets: seq<seq<CatalogEntry>>, n: nat, id: bytes, digest: bytes)
    requires n <= |sets|
    ensures BoundIn(Flatten(sets, n), id, digest) <==> Binds(sets[..n], id, digest)
  {
    if n > 0 {
      FlattenBinds(sets, n - 1, id, digest);
      var before, last := Flatten(sets, n - 1), sets[n - 1];
      var all: seq<CatalogEntry> := before + last;
      assert sets[..n][..n - 1] == sets[..n - 1];
      if BoundIn(all, id, digest) {
        var k :| 0 <= k < |all| && all[k].componentId == id && all[k].manifest.digest == digest;
        if k < |before| {
          assert BoundIn(before, id, digest);
          var i, j :| 0 <= i < n - 1 && 0 <= j < |sets[..n - 1][i]| && BindsAt(sets[..n - 1], i, j, id, digest);
          assert BindsAt(sets[..n], i, j, id, digest);
        } else {
          assert BindsAt(sets[..n], n - 1, k - |before|, id, digest);
        }
      }
      if Binds(sets[..n], id, digest) {
        var i, j :| 0 <= i < n && 0 <= j < |sets[..n][i]| && BindsAt(sets[..n], i, j, id, digest);
        if i < n - 1 {
          assert BindsAt(sets[..n - 1], i, j, id, digest);
          var k :| 0 <= k < |before| && before[k].componentId == id && before[k].manifest.digest == digest;
          assert all[k] == before[k];
        } else {
          assert all[|before| + j] == last[j];
        }
      }
    }
  }

  /** The loop state after some entries: the map keeps one digest of each id, the set the ids with two. */
  ghost predicate Tracks(seen: seq<CatalogEntry>, bindings: map<bytes, bytes>, conflicted: seq<bytes>) {
    && Ascending(conflicted)
    && (forall id :: id in bindings ==> BoundIn(seen, id, bindings[id]))
    && (forall id, d :: BoundIn(seen, id, d) ==> id in bindings)
    && (forall id :: id in conflicted <==> TwiceBound(seen, id))
  }

  lemma BoundAppend(seen: seq<CatalogEntry>, e: CatalogEntry, id: bytes, d: bytes)
    ensures BoundIn(seen + [e], id, d) <==> BoundIn(seen, id, d) || (e.componentId == id && e.manifest.digest == d)
  {
    var all := seen + [e];
    if BoundIn(seen, id, d) {
      var k :| 0 <= k < |seen| && seen[k].componentId == id && seen[k].manifest.digest == d;
      assert all[k] == seen[k];
    }
    if e.componentId == id && e.manifest.digest == d {
      assert all[|seen|] == e;
    }
  }

  /** A second digest for a known id is a conflict; a first, or the same again, is not. */
  lemma TwiceAppend(seen: seq<CatalogEntry>, e: CatalogEntry, bindings: map<bytes, bytes>, conflicted: seq<bytes>, id: bytes)
    requires Tracks(seen, bindings, conflicted)
    ensures TwiceBound(seen + [e], id) <==>
            TwiceBound(seen, id)
            || (id == e.componentId && id in bindings && bindings[id] != e.manifest.digest)
  {
    forall d { BoundAppend(seen, e, id, d); }
    if id == e.componentId && id in bindings && bindings[id] != e.manifest.digest {
      assert BoundIn(seen + [e], id, bindings[id]) && BoundIn(seen + [e], id, e.manifest.digest);
    }
  }

  /**
   Detection, not enumeration: the map keeps one digest of each component, and yet the result lists,
   sorted and once, exactly the components bound to two different digests.
   */
  method ConflictingDigests(sets: seq<seq<CatalogEntry>>) returns (r: seq<bytes>)
    ensures Ascending(r) && forall id :: id in r <==> Conflicted(sets, id)
  {
    var bindings: map<bytes, bytes> := map[];
    var conflicted: seq<bytes> := [];
    ghost var seen: seq<CatalogEntry> := [];
    for i := 0 to |sets|
      invariant seen == Flatten(sets, i) && Tracks(seen, bindings, conflicted)
    {
      var entries := sets[i];
      for j := 0 to |entries|
        invariant seen == Flatten(sets, i) + entries[..j] && Tracks(seen, bindings, conflicted)
      {
        var e := entries[j];
        forall id { TwiceAppend(seen, e, bindings, conflicted, id); }
        forall id, d { BoundAppend(seen, e, id, d); }
        if e.componentId in bindings && bindings[e.componentId] != e.manifest.digest {
          SetInsertAscending(conflicted, e.componentId);
          conflicted := SetInsert(conflicted, e.componentId);
        } else {
          bindings := bindings[e.componentId := e.manifest.digest];
        }
        seen := seen + [e];
        assert entries[..j + 1] == entries[..j] + [e];
      }
      assert entries[..|entries|] == entries;
    }
    forall id ensures id in conflicted <==> Conflicted(sets, id) {
      forall d { FlattenBinds(sets, |sets|, id, d); }
      assert sets[..|sets|] == sets;
    }
    r := conflicted;
  }

  /** The answer is determined by the bindings alone: order and repetition of entries never matter. */
  lemma SameBindingsSameConflicts(s: seq<seq<CatalogEntry>>, t: seq<seq<CatalogEntry>>, r: seq<bytes>, q: seq<bytes>)
    requires forall id, d :: Binds(s, id, d) <==> Binds(t, id, d)
    requires Ascending(r) && forall id :: id in r <==> Conflicted(s, id)
    requires Ascending(q) && forall id :: id in q <==> Conflicted(t, id)
    ensures r == q
  {
    AscendingUnique(r, q);
  }

  lemma BoundPermuted(a: seq<CatalogEntry>, b: seq<CatalogEntry>, id: bytes, d: bytes)
    requires multiset(a) == multiset(b) && BoundIn(a, id, d)
    ensures BoundIn(b, id, d)
  {
    var k :| 0 <= k < |a| && a[k].componentId == id && a[k].manifest.digest == d;
    assert a[k] in multiset(b);
    var l :| 0 <= l < |b| && b[l] == a[k];
  }

  /** The same entries, however they are ordered and divided into sets, have the same conflicts. */
  lemma PermutationIrrelevant(s: seq<seq<CatalogEntry>>, t: seq<seq<CatalogEntry>>, id: bytes)
    requires multiset(Flatten(s, |s|)) == multiset(Flatten(t, |t|))
    ensures Conflicted(s, id) <==> Conflicted(t, id)
  {
    forall d ensures Binds(s, id, d) <==> Binds(t, id, d) {
      FlattenBinds(s, |s|, id, d);
      FlattenBinds(t, |t|, id, d);
      assert s[..|s|] == s && t[..|t|] == t;
      if BoundIn(Flatten(s, |s|), id, d) { BoundPermuted(Flatten(s, |s|), Flatten(t, |t|), id, d); }
      if BoundIn(Flatten(t, |t|), id, d) { BoundPermuted(Flatten(t, |t|), Flatten(s, |s|), id, d); }
    }
  }

  /** `source_conflicts(a, b)` and `source_conflicts(b, a)` report the same components. */
  lemma SwapBindings(a: seq<CatalogEntry>, b: seq<CatalogEntry>, id: bytes, d: bytes)
    ensures Binds([a, b], id, d) <==> Binds([b, a], id, d)
  {
    if Binds([a, b], id, d) { SwapOneWay(a, b, id, d); }
    if Binds([b, a], id, d) { SwapOneWay(b, a, id, d); }
  }

  lemma SwapOneWay(a: seq<CatalogEntry>, b: seq<CatalogEntry>, id: bytes, d: bytes)
    requires Binds([a, b], id, d)
    ensures Binds([b, a], id, d)
  {
    var i, j :| 0 <= i < 2 && 0 <= j < |[a, b][i]| && BindsAt([a, b], i, j, id, d);
    assert BindsAt([b, a], 1 - i, j, id, d);
  }

  /** Two sources disagree about exactly the components bound to different digests across them. */
  method SourceConflicts(a: seq<CatalogEntry>, b: seq<CatalogEntry>) returns (r: seq<bytes>)
    ensures Ascending(r) && forall id :: id in r <==> Conflicted([a, b], id)
    ensures forall id :: id in r <==> Conflicted([b, a], id)
  {
    r := ConflictingDigests([a, b]);
    forall id, d { SwapBindings(a, b, id, d); }
  }

  datatype CrossCatalogCheck = NoConflict | ConflictsFound(ids: seq<bytes>) | DifferentProviders

  function EntrySets(snapshots: seq<VerifiedSnapshot>): (sets: seq<seq<CatalogEntry>>)
    ensures |sets| == |snapshots| && forall i | 0 <= i < |snapshots| :: sets[i] == snapshots[i].entries
  {
    seq(|snapshots|, i requires 0 <= i < |snapshots| => snapshots[i].entries)
  }

  ghost predicate OneProvider(snapshots: seq<VerifiedSnapshot>) {
    forall i, j | 0 <= i < |snapshots| && 0 <= j < |snapshots| ::
      snapshots[i].snapshot.providerId == snapshots[j].snapshot.providerId
  }

  /** What a check of these snapshots reports. */
  ghost predicate Reports(snapshots: seq<VerifiedSnapshot>, r: CrossCatalogCheck) {
    && (r.DifferentProviders? <==> !OneProvider(snapshots))
    && (r.ConflictsFound? ==>
          r.ids != [] && Ascending(r.ids) && forall id :: id in r.ids <==> Conflicted(EntrySets(snapshots), id))
    && (r.NoConflict? ==> forall id :: !Conflicted(EntrySets(snapshots), id))
  }

  method CrossCatalogEquivocation(snapshots: seq<VerifiedSnapshot>) returns (r: CrossCatalogCheck)
    ensures Reports(snapshots, r)
  {
    for i := 0 to |snapshots|
      invariant forall k | 0 <= k < i :: snapshots[k].snapshot.providerId == snapshots[0].snapshot.providerId
    {
      if snapshots[i].snapshot.providerId != snapshots[0].snapshot.providerId { return DifferentProviders; }
    }
    var conflicts := ConflictingDigests(EntrySets(snapshots));
    r := if conflicts == [] then NoConflict else ConflictsFound(conflicts);
  }

  /** A conflict comes from two entries for the component, of different digests. */
  lemma ConflictEntries(sets: seq<seq<CatalogEntry>>, id: bytes) returns (i: nat, j: nat, k: nat, l: nat)
    requires Conflicted(sets, id)
    ensures i < |sets| && k < |sets| && j < |sets[i]| && l < |sets[k]|
    ensures sets[i][j].componentId == sets[k][l].componentId == id
    ensures sets[i][j].manifest.digest != sets[k][l].manifest.digest
  {
    var d, e :| d != e && Binds(sets, id, d) && Binds(sets, id, e);
    var i', j' :| 0 <= i' < |sets| && 0 <= j' < |sets[i']| && BindsAt(sets, i', j', id, d);
    var k', l' :| 0 <= k' < |sets| && 0 <= l' < |sets[k']| && BindsAt(sets, k', l', id, e);
    i, j, k, l := i', j', k', l';
  }

  /** When no set repeats a component, a conflict comes from two sets that hold different entries for it. */
  lemma ConflictSpansSets(sets: seq<seq<CatalogEntry>>, id: bytes) returns (i: nat, j: nat, k: nat, l: nat)
    requires forall i | 0 <= i < |sets| :: Distinct(ComponentIds(sets[i]))
    requires Conflicted(sets, id)
    ensures i < |sets| && k < |sets| && sets[i] != sets[k] && j < |sets[i]| && l < |sets[k]|
    ensures sets[i][j].componentId == sets[k][l].componentId == id
    ensures sets[i][j].manifest.digest != sets[k][l].manifest.digest
  {
    i, j, k, l := ConflictEntries(sets, id);
    assert ComponentIds(sets[i])[j] == ComponentIds(sets[k])[l];
  }

  // ----- over accepted snapshots -----

  /** Some client has accepted this. */
  ghost predicate WasAccepted(c: Platform, v: VerifiedSnapshot) {
    exists raw, m, retained, now :: SnapshotVerdict(c, raw, m, retained, now) == Ok(v)
  }

  lemma AcceptedDistinct(c: Platform, v: VerifiedSnapshot)
    requires WasAccepted(c, v)
    ensures Distinct(ComponentIds(v.entries))
  {
    var raw, m, retained, now :| SnapshotVerdict(c, raw, m, retained, now) == Ok(v);
    VerdictDistinct(c, raw, m, retained, now, v);
  }

  lemma VerdictDistinct(c: Platform, raw: bytes, m: VerifiedManifest, retained: Option<Retained>, now: Timestamps.Instant,
                        v: VerifiedSnapshot)
    requires SnapshotVerdict(c, raw, m, retained, now) == Ok(v)
    ensures Distinct(ComponentIds(v.entries))
  {
  }

  /**
   Among accepted snapshots, whoever accepted them and when, every component that is reported is listed with two
   different digests in two different snapshots, of the one provider that all of them are from.
   */
  lemma AcceptedConflicts(c: Platform, snapshots: seq<VerifiedSnapshot>, r: CrossCatalogCheck, id: bytes)
    returns (i: nat, j: nat, k: nat, l: nat)
    requires forall n {:trigger snapshots[n]} | 0 <= n < |snapshots| :: WasAccepted(c, snapshots[n])
    requires Reports(snapshots, r) && r.ConflictsFound? && id in r.ids
    ensures i < |snapshots| && k < |snapshots| && snapshots[i] != snapshots[k]
    ensures j < |snapshots[i].entries| && l < |snapshots[k].entries|
    ensures snapshots[i].entries[j].componentId == snapshots[k].entries[l].componentId == id
    ensures snapshots[i].entries[j].manifest.digest != snapshots[k].entries[l].manifest.digest
    ensures snapshots[i].snapshot.providerId == snapshots[k].snapshot.providerId
  {
    var sets := EntrySets(snapshots);
    forall n | 0 <= n < |sets| ensures Distinct(ComponentIds(sets[n])) { AcceptedDistinct(c, snapshots[n]); }
    i, j, k, l := ConflictSpansSets(sets, id);
  }

  /** Any number of copies of one accepted snapshot: the check reports no conflict. */
  lemma VerifiedConflictFree(c: Platform, v: VerifiedSnapshot, n: nat, r: CrossCatalogCheck)
    requires WasAccepted(c, v) && Reports(seq(n, _ => v), r)
    ensures r == NoConflict
  {
    var copies := seq(n, _ => v);
    assert OneProvider(copies);
    if r.ConflictsFound? {
      var i, j, k, l := AcceptedConflicts(c, copies, r, r.ids[0]);
    }
  }
}
