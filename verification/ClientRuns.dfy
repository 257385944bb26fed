/** A client over time: refresh, accept or refuse, retain. Theorems about every run. */
module ClientRuns {
  import opened Basics
  import opened Signing
  import opened Timestamps
  import opened Verify
  import opened ChainLogs

  // ----- runs -----

  datatype Fetch = Fetch(raw: bytes, manifest: VerifiedManifest, now: Instant)

  type Verifier = (Fetch, Option<Retained>) -> Result<VerifiedSnapshot, Error>

  function Verifying(c: Platform): Verifier {
    (f: Fetch, retained: Option<Retained>) => SnapshotVerdict(c, f.raw, f.manifest, retained, f.now)
  }

  /** An acceptance is retained and logged; a refusal changes nothing. */
  function Settle(state: Option<Retained>, log: seq<Acceptance>, raw: bytes, verdict: Result<VerifiedSnapshot, Error>)
    : (Option<Retained>, seq<Acceptance>)
  {
    match verdict
    case Ok(v) => (Some(AfterAcceptance(state, v)), log + [Acceptance(raw, v)])
    case Err(_) => (state, log)
  }

  /** The state and the acceptances of a client after it has made some fetches. */
  function RunWith(verify: Verifier, start: Option<Retained>, fetches: seq<Fetch>): (Option<Retained>, seq<Acceptance>) {
    if fetches == [] then (start, [])
    else
      var n := |fetches| - 1;
      var (state, log) := RunWith(verify, start, fetches[..n]);
      Settle(state, log, fetches[n].raw, verify(fetches[n], state))
  }

  function Run(c: Platform, start: Option<Retained>, fetches: seq<Fetch>): (Option<Retained>, seq<Acceptance>) {
    RunWith(Verifying(c), start, fetches)
  }

  lemma RunOneMore(verify: Verifier, start: Option<Retained>, before: seq<Fetch>, f: Fetch, state: Option<Retained>,
                   log: seq<Acceptance>)
    requires RunWith(verify, start, before) == (state, log)
    ensures RunWith(verify, start, before + [f]) == Settle(state, log, f.raw, verify(f, state))
  {
    var all := before + [f];
    assert all[..|all| - 1] == before;
  }

  /** A client object: what it retains, and (for specification) what it was shown and accepted. */
  class Client {
    const platform: Platform
    const start: Option<Retained>
    var retained: Option<Retained>
    ghost var fetches: seq<Fetch>
    ghost var log: seq<Acceptance>

    ghost predicate Valid()
      reads this
    {
      Run(platform, start, fetches) == (retained, log)
    }

    constructor (c: Platform, initial: Option<Retained>)
      ensures Valid() && platform == c && start == initial && retained == initial && fetches == []
    {
      platform, start, retained := c, initial, initial;
      fetches, log := [], [];
    }

    /** Verify what was fetched; retain it only when it is accepted. */
    method Refresh(raw: bytes, manifest: VerifiedManifest, now: Instant)
      returns (verdict: Result<VerifiedSnapshot, Error>)
      requires Valid()
      modifies this
      ensures Valid() && fetches == old(fetches) + [Fetch(raw, manifest, now)]
      ensures verdict == SnapshotVerdict(platform, raw, manifest, old(retained), now)
      ensures verdict.Ok? ==> retained == Some(AfterAcceptance(old(retained), verdict.value))
      ensures verdict.Ok? ==> log == old(log) + [Acceptance(raw, verdict.value)]
      ensures verdict.Err? ==> retained == old(retained) && log == old(log)
    {
      verdict := VerifySnapshot(platform, raw, manifest, retained, now);
      fetches := fetches + [Fetch(raw, manifest, now)];
      assert fetches[..|fetches| - 1] == old(fetches);
      if verdict.Ok? {
        retained := Some(AfterAcceptance(retained, verdict.value));
        log := log + [Acceptance(raw, verdict.value)];
      }
    }
  }

  /** An accepted log entry carries the digest and the decoding of its own bytes. */
  ghost predicate Genuine(c: Platform, a: Acceptance) {
    a.v.digest == Digest(c, a.raw) && Typed(a.raw) == Some(a.v.snapshot)
  }

  lemma VerdictFollows(c: Platform, raw: bytes, m: VerifiedManifest, retained: Option<Retained>, now: Instant,
                       v: VerifiedSnapshot)
    requires SnapshotVerdict(c, raw, m, retained, now) == Ok(v)
    ensures Genuine(c, Acceptance(raw, v)) && Follows(retained, Acceptance(raw, v))
  {
    var a := Admit(c, raw, m, retained, now).value;
    var policy := AdmitSteps(c, raw, m, retained, now, a);
    AdmittedFollows(Typed(raw).value, Digest(c, raw), policy, retained, a);
  }

  lemma AdmitSteps(c: Platform, raw: bytes, m: VerifiedManifest, retained: Option<Retained>, now: Instant, a: Admission)
    returns (policy: bytes)
    requires Admit(c, raw, m, retained, now) == Ok(a)
    ensures Typed(raw).Some? && AdmitAgainst(Typed(raw).value, Digest(c, raw), policy, retained) == Ok(a)
  {
    policy := FindCatalog(m.catalogs, Typed(raw).value.catalogId).value.policy;
  }

  /** Every run is a linked log of genuine acceptances, and ends in the state that its log determines. */
  lemma {:induction false} RunLinked(c: Platform, start: Option<Retained>, fetches: seq<Fetch>)
    ensures var (state, log) := Run(c, start, fetches);
            && Linked(start, log) && state == StateAt(start, log, |log|)
            && forall i | 0 <= i < |log| :: Genuine(c, log[i])
  {
    if fetches != [] {
      var n := |fetches| - 1;
      RunLinked(c, start, fetches[..n]);
      var (state, log) := Run(c, start, fetches[..n]);
      SettleLinked(c, start, state, log, fetches[n], Verifying(c)(fetches[n], state));
    }
  }

  lemma SettleLinked(c: Platform, start: Option<Retained>, state: Option<Retained>, log: seq<Acceptance>, f: Fetch,
                     verdict: Result<VerifiedSnapshot, Error>)
    requires Linked(start, log) && state == StateAt(start, log, |log|) && forall i | 0 <= i < |log| :: Genuine(c, log[i])
    requires verdict == SnapshotVerdict(c, f.raw, f.manifest, state, f.now)
    ensures var (state', log') := Settle(state, log, f.raw, verdict);
            && Linked(start, log') && state' == StateAt(start, log', |log'|)
            && forall i | 0 <= i < |log'| :: Genuine(c, log'[i])
  {
    if verdict.Ok? {
      VerdictFollows(c, f.raw, f.manifest, state, f.now, verdict.value);
      ExtendLog(start, log, Acceptance(f.raw, verdict.value));
    }
  }

  // ----- theorems over runs -----

  /**
   Over a whole run, from whatever was retained at its start: the final retained sequence is the one retained at
   the start (or, from nothing, the first accepted one) plus the successors plus, for each forward jump, the
   publications missed and one more. The retained digest is that of the last accepted bytes, and as long as the
   sequence is the one retained at the start, so is the digest.
   */
  lemma RunAccounting(c: Platform, start: Option<Retained>, fetches: seq<Fetch>, state: Option<Retained>,
                      log: seq<Acceptance>)
    requires Run(c, start, fetches) == (state, log)
    ensures log == [] ==> state == start
    ensures log != [] ==> state.Some? && state.value.digest == Digest(c, log[|log| - 1].raw)
    ensures log != [] && start.None? ==>
              && log[0].v.outcome == FirstAcceptance
              && state.value.sequence as int == SequenceAt(log, 0) + Progress(log, 1, |log|)
    ensures start.Some? ==>
              && state.Some? && state.value.sequence as int == start.value.sequence as int + Progress(log, 0, |log|)
              && (state.value.sequence == start.value.sequence ==> state.value.digest == start.value.digest)
  {
    RunLinked(c, start, fetches);
    if log != [] { assert Genuine(c, log[|log| - 1]); }
    Accounting(start, log, state);
  }

  /**
   In every run the accepted sequences never decrease, and one sequence is never accepted with two digests; nor
   does an accepted sequence fall below the one retained at the start, or equal it with another digest.
   */
  lemma RunSafety(c: Platform, start: Option<Retained>, fetches: seq<Fetch>, log: seq<Acceptance>, i: nat, j: nat)
    requires Run(c, start, fetches).1 == log && i <= j < |log|
    ensures SequenceAt(log, i) <= SequenceAt(log, j)
    ensures SequenceAt(log, i) == SequenceAt(log, j) ==> Digest(c, log[i].raw) == Digest(c, log[j].raw)
    ensures start.Some? ==> start.value.sequence as int <= SequenceAt(log, i)
    ensures start.Some? && start.value.sequence as int == SequenceAt(log, i) ==> start.value.digest == Digest(c, log[i].raw)
  {
    RunLinked(c, start, fetches);
    assert Genuine(c, log[i]) && Genuine(c, log[j]);
    SequenceAccounting(start, log, i, j);
    if SequenceAt(log, i) == SequenceAt(log, j) { OneDigestPerSequence(start, log, i, j); }
    if start.Some? { RetainedAccounting(start.value, log, i + 1); }
  }

  /**
   The grace closes once and for all: an accepted transition cites the policy retained at the start, and
   everything accepted before it was a transition too. So after the first acceptance of the current policy
   there is never another transition, whatever the manifests say.
   */
  lemma GraceCloses(c: Platform, start: Option<Retained>, fetches: seq<Fetch>, j: nat)
    requires j < |Run(c, start, fetches).1| && Run(c, start, fetches).1[j].v.policyTransition
    ensures var log := Run(c, start, fetches).1;
            && start.Some? && start.value.previousPolicy == Some(log[j].v.snapshot.policyDigest)
            && forall i | 0 <= i <= j :: log[i].v.policyTransition
  {
    RunLinked(c, start, fetches);
    var log := Run(c, start, fetches).1;
    LinkedAt(start, log, j);
    GraceRetained(start, log, j);
  }

  /** No two different byte strings accepted in the two logs have one digest. */
  ghost predicate NoCollision(c: Platform, l: seq<Acceptance>, m: seq<Acceptance>) {
    forall i, j | 0 <= i < |l| && 0 <= j < |m| && Digest(c, l[i].raw) == Digest(c, m[j].raw) :: l[i].raw == m[j].raw
  }

  /**
   Agreement on history, whatever the publisher does: when two client runs end on one digest, and took no
   forward jump since each accepted sequence k, both accepted every sequence from k to the last, and at
   each of them the very same bytes.
   */
  lemma RunsAgree(c: Platform, s: Option<Retained>, fs: seq<Fetch>, l: seq<Acceptance>, a: nat,
                  t: Option<Retained>, gs: seq<Fetch>, m: seq<Acceptance>, b: nat, q: int)
    requires Run(c, s, fs).1 == l && Run(c, t, gs).1 == m && NoCollision(c, l, m)
    requires a < |l| && b < |m| && JumpFree(l, a) && JumpFree(m, b) && SequenceAt(l, a) == SequenceAt(m, b)
    requires Digest(c, l[|l| - 1].raw) == Digest(c, m[|m| - 1].raw)
    requires SequenceAt(l, a) <= q <= SequenceAt(l, |l| - 1)
    ensures exists i, j :: a <= i < |l| && b <= j < |m| && SequenceAt(l, i) == q && SequenceAt(m, j) == q
    ensures forall i, j | a <= i < |l| && b <= j < |m| && SequenceAt(l, i) == q && SequenceAt(m, j) == q ::
              l[i].raw == m[j].raw
  {
    RunLinked(c, s, fs);
    RunLinked(c, t, gs);
    GenuineDetermined(c, l, m);
    assert Genuine(c, l[|l| - 1]) && Genuine(c, m[|m| - 1]);
    HistoryAgreement(s, l, a, t, m, b, q);
  }

  lemma GenuineDetermined(c: Platform, l: seq<Acceptance>, m: seq<Acceptance>)
    requires NoCollision(c, l, m) && (forall i | 0 <= i < |l| :: Genuine(c, l[i])) && forall j | 0 <= j < |m| :: Genuine(c, m[j])
    ensures Determined(l, m)
  {
    forall i, j | 0 <= i < |l| && 0 <= j < |m| && l[i].v.digest == m[j].v.digest ensures l[i].raw == m[j].raw {
      assert Genuine(c, l[i]) && Genuine(c, m[j]);
    }
    forall i, j | 0 <= i < |l| && 0 <= j < |m| && l[i].raw == m[j].raw ensures l[i].v.snapshot == m[j].v.snapshot {
      assert Genuine(c, l[i]) && Genuine(c, m[j]);
    }
  }
}
