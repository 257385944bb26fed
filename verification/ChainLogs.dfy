/** Logs of accepted snapshots, each justified by what was retained before it. */
module ChainLogs {
  import opened Basics
  import opened Documents
  import opened Verify

  // ----- the four cases -----

  /** What each accepted outcome says about the snapshot and the retained acceptance. */
  ghost predicate Justified(s: CatalogSnapshot, digest: bytes, retained: Option<Retained>, o: ChainOutcome) {
    match o
    case FirstAcceptance => retained.None?
    case NoOpRefresh =>
      retained.Some? && s.sequence == retained.value.sequence && digest == retained.value.digest
    case Successor =>
      && retained.Some? && s.sequence as int == retained.value.sequence as int + 1
      && s.previousDigest == Some(retained.value.digest)
    case ForwardJump(missed) =>
      && retained.Some? && s.sequence as int == retained.value.sequence as int + missed as int + 1 && missed > 0
      && s.previousDigest != Some(retained.value.digest)
  }

  /** What each accusation says. */
  ghost predicate Accused(s: CatalogSnapshot, digest: bytes, retained: Option<Retained>, e: Error) {
    && retained.Some?
    && var r := retained.value;
       match e
       case SnapshotInvalid(Rollback) => s.sequence < r.sequence
       case SnapshotInvalid(Fork) =>
         || (s.sequence == r.sequence && digest != r.digest)
         || (s.sequence as int == r.sequence as int + 1 && s.previousDigest != Some(r.digest))
       case SnapshotInvalid(InconsistentJump) =>
         s.sequence as int > r.sequence as int + 1 && s.previousDigest == Some(r.digest)
       case _ => false
  }

  /** The comparison reports an outcome or an accusation exactly when it is the case. */
  lemma FourCases(s: CatalogSnapshot, digest: bytes, retained: Option<Retained>, o: ChainOutcome, e: Error)
    ensures CompareChain(s, digest, retained) == Ok(o) <==> Justified(s, digest, retained, o)
    ensures CompareChain(s, digest, retained) == Err(e) <==> Accused(s, digest, retained, e)
  {
  }

  // ----- logs -----

  datatype Acceptance = Acceptance(raw: bytes, v: VerifiedSnapshot)

  /** One acceptance, given what was retained before it. */
  ghost predicate Follows(retained: Option<Retained>, a: Acceptance) {
    && Justified(a.v.snapshot, a.v.digest, retained, a.v.outcome)
    && (a.v.policyTransition ==> retained.Some? && retained.value.previousPolicy == Some(a.v.snapshot.policyDigest))
  }

  /** What is retained before the acceptance at `n`. */
  function StateAt(start: Option<Retained>, log: seq<Acceptance>, n: nat): Option<Retained>
    requires n <= |log|
  {
    if n == 0 then start else Some(AfterAcceptance(StateAt(start, log, n - 1), log[n - 1].v))
  }

  /** Each of the first `n` acceptances follows from what was retained before it. */
  ghost predicate LinkedTo(start: Option<Retained>, log: seq<Acceptance>, n: nat)
    requires n <= |log|
  {
    n == 0 || (LinkedTo(start, log, n - 1) && Follows(StateAt(start, log, n - 1), log[n - 1]))
  }

  ghost predicate Linked(start: Option<Retained>, log: seq<Acceptance>) {
    LinkedTo(start, log, |log|)
  }

  lemma {:induction false} LinkedBelow(start: Option<Retained>, log: seq<Acceptance>, n: nat, i: nat)
    requires n <= |log| && LinkedTo(start, log, n) && i < n
    ensures Follows(StateAt(start, log, i), log[i])
  {
    if i < n - 1 { LinkedBelow(start, log, n - 1, i); }
  }

  lemma LinkedAt(start: Option<Retained>, log: seq<Acceptance>, i: nat)
    requires Linked(start, log) && i < |log|
    ensures Follows(StateAt(start, log, i), log[i])
  {
    LinkedBelow(start, log, |log|, i);
  }

  lemma {:induction false} StatePrefix(start: Option<Retained>, log: seq<Acceptance>, tail: seq<Acceptance>, n: nat)
    requires n <= |log|
    ensures StateAt(start, log + tail, n) == StateAt(start, log, n)
  {
    if n > 0 { StatePrefix(start, log, tail, n - 1); }
  }

  lemma {:induction false} LinkedPrefix(start: Option<Retained>, log: seq<Acceptance>, tail: seq<Acceptance>, n: nat)
    requires n <= |log| && LinkedTo(start, log, n)
    ensures LinkedTo(start, log + tail, n)
  {
    if n > 0 {
      LinkedPrefix(start, log, tail, n - 1);
      StatePrefix(start, log, tail, n - 1);
    }
  }

  lemma ExtendLog(start: Option<Retained>, log: seq<Acceptance>, a: Acceptance)
    requires Linked(start, log) && Follows(StateAt(start, log, |log|), a)
    ensures Linked(start, log + [a])
    ensures StateAt(start, log + [a], |log| + 1) == Some(AfterAcceptance(StateAt(start, log, |log|), a.v))
  {
    LinkedPrefix(start, log, [a], |log|);
    StatePrefix(start, log, [a], |log|);
  }

  // ----- safety and accounting -----

  function SequenceAt(log: seq<Acceptance>, i: nat): int
    requires i < |log|
  {
    log[i].v.snapshot.sequence as int
  }

  /** How far one acceptance moves the retained sequence. */
  function Advance(o: ChainOutcome): nat {
    match o
    case Successor => 1
    case ForwardJump(missed) => missed as nat + 1
    case _ => 0
  }

  function Progress(log: seq<Acceptance>, from: nat, to: nat): nat
    requires from <= to <= |log|
  {
    if from == to then 0 else Progress(log, from, to - 1) + Advance(log[to - 1].v.outcome)
  }

  /** Between two acceptances the sequence grows by the successors and jumps after the first of them. */
  lemma {:induction false} SequenceAccounting(start: Option<Retained>, log: seq<Acceptance>, i: nat, j: nat)
    requires Linked(start, log) && i <= j < |log|
    ensures SequenceAt(log, j) == SequenceAt(log, i) + Progress(log, i + 1, j + 1)
    ensures SequenceAt(log, i) <= SequenceAt(log, j)
  {
    if i < j {
      SequenceAccounting(start, log, i, j - 1);
      LinkedAt(start, log, j);
    }
  }

  /** Two acceptances at one sequence are of the same digest. */
  lemma {:induction false} OneDigestPerSequence(start: Option<Retained>, log: seq<Acceptance>, i: nat, j: nat)
    requires Linked(start, log) && i <= j < |log| && SequenceAt(log, i) == SequenceAt(log, j)
    ensures log[i].v.digest == log[j].v.digest
  {
    if i < j {
      SequenceAccounting(start, log, i, j - 1);
      SequenceAccounting(start, log, j - 1, j);
      OneDigestPerSequence(start, log, i, j - 1);
      LinkedAt(start, log, j);
    }
  }

  /** Accounting of a log that starts with nothing retained. */
  lemma LogAccounting(log: seq<Acceptance>)
    requires Linked(None, log) && log != []
    ensures log[0].v.outcome == FirstAcceptance
    ensures StateAt(None, log, |log|).value.sequence as int == SequenceAt(log, 0) + Progress(log, 1, |log|)
    ensures StateAt(None, log, |log|).value.digest == log[|log| - 1].v.digest
  {
    LinkedAt(None, log, 0);
    SequenceAccounting(None, log, 0, |log| - 1);
  }

  /**
   Accounting of a log that starts from a retained acceptance: the retained sequence grows by the successors
   and jumps of the log, and while it has not moved the retained digest has not changed.
   */
  lemma {:induction false} RetainedAccounting(r: Retained, log: seq<Acceptance>, n: nat)
    requires Linked(Some(r), log) && n <= |log|
    ensures var state := StateAt(Some(r), log, n).value;
            && state.sequence as int == r.sequence as int + Progress(log, 0, n)
            && (state.sequence == r.sequence ==> state.digest == r.digest)
    ensures n > 0 ==> StateAt(Some(r), log, n).value.sequence as int == SequenceAt(log, n - 1)
                      && StateAt(Some(r), log, n).value.digest == log[n - 1].v.digest
  {
    if n > 0 {
      RetainedAccounting(r, log, n - 1);
      LinkedAt(Some(r), log, n - 1);
    }
  }

  /** Accounting of any log, from whatever was retained at its start. */
  lemma Accounting(start: Option<Retained>, log: seq<Acceptance>, state: Option<Retained>)
    requires Linked(start, log) && state == StateAt(start, log, |log|)
    ensures log == [] ==> state == start
    ensures log != [] ==> state.Some? && state.value.digest == log[|log| - 1].v.digest
    ensures log != [] && start.None? ==>
              && log[0].v.outcome == FirstAcceptance
              && state.value.sequence as int == SequenceAt(log, 0) + Progress(log, 1, |log|)
    ensures start.Some? ==>
              && state.Some? && state.value.sequence as int == start.value.sequence as int + Progress(log, 0, |log|)
              && (state.value.sequence == start.value.sequence ==> state.value.digest == start.value.digest)
  {
    if start.Some? { RetainedAccounting(start.value, log, |log|); }
    if start.None? && log != [] { LogAccounting(log); }
  }

  // ----- the policy grace -----

  /** The grace still open before the acceptance at `n` is the one retained at the start, or none. */
  lemma {:induction false} GraceRetained(start: Option<Retained>, log: seq<Acceptance>, n: nat)
    requires Linked(start, log) && n <= |log| && StateAt(start, log, n).Some?
    ensures var grace := StateAt(start, log, n).value.previousPolicy;
            grace.Some? ==>
              start.Some? && grace == start.value.previousPolicy && forall i | 0 <= i < n :: log[i].v.policyTransition
  {
    if n > 0 {
      LinkedAt(start, log, n - 1);
      if log[n - 1].v.policyTransition { GraceRetained(start, log, n - 1); }
    }
  }

  // ----- agreement on history -----

  /** Across two logs, one digest means one byte string, and one byte string one snapshot. */
  ghost predicate Determined(l: seq<Acceptance>, m: seq<Acceptance>) {
    && (forall i, j | 0 <= i < |l| && 0 <= j < |m| && l[i].v.digest == m[j].v.digest :: l[i].raw == m[j].raw)
    && (forall i, j | 0 <= i < |l| && 0 <= j < |m| && l[i].raw == m[j].raw :: l[i].v.snapshot == m[j].v.snapshot)
  }

  /** From the acceptance at `a` on, the log takes no forward jump. */
  ghost predicate JumpFree(log: seq<Acceptance>, a: nat) {
    forall i | a < i < |log| :: !log[i].v.outcome.ForwardJump?
  }

  /** A jump-free stretch accepts a successor at each sequence it passes. */
  lemma {:induction false} SuccessorAt(start: Option<Retained>, log: seq<Acceptance>, a: nat, n: nat, q: int)
    returns (i: nat)
    requires Linked(start, log) && JumpFree(log, a) && a <= n < |log|
    requires SequenceAt(log, a) < q <= SequenceAt(log, n)
    ensures a < i <= n && SequenceAt(log, i) == q && SequenceAt(log, i - 1) == q - 1
    ensures log[i].v.snapshot.previousDigest == Some(log[i - 1].v.digest)
  {
    LinkedAt(start, log, n);
    SequenceAccounting(start, log, n - 1, n);
    if q <= SequenceAt(log, n - 1) {
      i := SuccessorAt(start, log, a, n - 1, q);
    } else {
      i := n;
    }
  }

  /** A jump-free stretch passes through every sequence. */
  lemma Passes(start: Option<Retained>, log: seq<Acceptance>, a: nat, q: int) returns (i: nat)
    requires Linked(start, log) && JumpFree(log, a) && a < |log|
    requires SequenceAt(log, a) <= q <= SequenceAt(log, |log| - 1)
    ensures a <= i < |log| && SequenceAt(log, i) == q
  {
    if q == SequenceAt(log, a) { i := a; } else { i := SuccessorAt(start, log, a, |log| - 1, q); }
  }

  /** Acceptances of one log at one sequence share their digest, in either order. */
  lemma SameDigest(start: Option<Retained>, log: seq<Acceptance>, i: nat, j: nat)
    requires Linked(start, log) && i < |log| && j < |log| && SequenceAt(log, i) == SequenceAt(log, j)
    ensures log[i].v.digest == log[j].v.digest
  {
    if i <= j { OneDigestPerSequence(start, log, i, j); } else { OneDigestPerSequence(start, log, j, i); }
  }

  /** Two clients: their logs, and from where each is jump-free. */
  ghost predicate Comparable(s: Option<Retained>, l: seq<Acceptance>, a: nat,
                             t: Option<Retained>, m: seq<Acceptance>, b: nat)
  {
    && Linked(s, l) && Linked(t, m) && a < |l| && b < |m| && JumpFree(l, a) && JumpFree(m, b)
    && Determined(l, m) && SequenceAt(l, a) == SequenceAt(m, b)
    && l[|l| - 1].v.digest == m[|m| - 1].v.digest
  }

  /** Backward along `previousDigest`: what is agreed at `q + 1` forces agreement at `q`. */
  lemma {:induction false} AgreeFrom(s: Option<Retained>, l: seq<Acceptance>, a: nat,
                                     t: Option<Retained>, m: seq<Acceptance>, b: nat, q: int, i: nat, j: nat)
    requires Comparable(s, l, a, t, m, b) && SequenceAt(l, a) <= q <= SequenceAt(l, |l| - 1)
    requires a <= i < |l| && b <= j < |m| && SequenceAt(l, i) == q && SequenceAt(m, j) == q
    ensures l[i].raw == m[j].raw
    decreases SequenceAt(l, |l| - 1) - q
  {
    var x, y := |l| - 1, |m| - 1;
    if q == SequenceAt(l, x) {
      SameDigest(s, l, i, x);
      SameDigest(t, m, j, y);
    } else {
      var i' := SuccessorAt(s, l, a, x, q + 1);
      var j' := SuccessorAt(t, m, b, y, q + 1);
      AgreeFrom(s, l, a, t, m, b, q + 1, i', j');
      SameDigest(s, l, i, i' - 1);
      SameDigest(t, m, j, j' - 1);
    }
  }

  /**
   Agreement on history, whatever the publisher does: two client runs that end on one digest, and that took no
   forward jump since accepting sequence k, both accepted every sequence from k to the last, and at each of
   them the very same bytes.
   */
  lemma HistoryAgreement(s: Option<Retained>, l: seq<Acceptance>, a: nat,
                         t: Option<Retained>, m: seq<Acceptance>, b: nat, q: int)
    requires Comparable(s, l, a, t, m, b) && SequenceAt(l, a) <= q <= SequenceAt(l, |l| - 1)
    ensures exists i, j :: a <= i < |l| && b <= j < |m| && SequenceAt(l, i) == q && SequenceAt(m, j) == q
    ensures forall i, j | a <= i < |l| && b <= j < |m| && SequenceAt(l, i) == q && SequenceAt(m, j) == q ::
              l[i].raw == m[j].raw
  {
    var x, y := |l| - 1, |m| - 1;
    var i0 := Passes(s, l, a, q);
    var j0 := Passes(t, m, b, q);
    forall i, j | a <= i < |l| && b <= j < |m| && SequenceAt(l, i) == q && SequenceAt(m, j) == q
      ensures l[i].raw == m[j].raw
    {
      AgreeFrom(s, l, a, t, m, b, q, i, j);
    }
  }

  /** What the checks against the retained state establish. */
  lemma AdmittedFollows(s: CatalogSnapshot, digest: bytes, policy: bytes, retained: Option<Retained>, a: Admission)
    requires AdmitAgainst(s, digest, policy, retained) == Ok(a)
    ensures a.snapshot == s && a.digest == digest && Justified(s, digest, retained, a.outcome)
    ensures a.transition ==> retained.Some? && retained.value.previousPolicy == Some(s.policyDigest)
  {
    FourCases(s, digest, retained, a.outcome, Malformed);
  }

  /** An accusation is made exactly when its case holds, the other checks having passed. */
  lemma AdmittedAccuses(s: CatalogSnapshot, digest: bytes, policy: bytes, retained: Option<Retained>, e: Error)
    requires AdmitAgainst(s, digest, policy, retained) == Err(e) && Accusation(e)
    ensures Accused(s, digest, retained, e) && ChainShape(s) && CheckRetained(s, retained) == None
  {
    FourCases(s, digest, retained, FirstAcceptance, e);
  }
}
