/** Lossy decoding: what survives, in order, and the indexes of what does not. */
module Lossy {
  import opened Basics

  /** The values that decoded among the first `n`, in order. */
  function Kept<T>(ds: seq<Option<T>>, n: nat): seq<T>
    requires n <= |ds|
  {
    if n == 0 then []
    else if ds[n - 1].Some? then Kept(ds, n - 1) + [ds[n - 1].value]
    else Kept(ds, n - 1)
  }

  /** The indexes below `n` that decoded (`some`) or did not, in order. */
  function Indexes<T>(ds: seq<Option<T>>, n: nat, some: bool): seq<nat>
    requires n <= |ds|
  {
    if n == 0 then []
    else if ds[n - 1].Some? == some then Indexes(ds, n - 1, some) + [n - 1]
    else Indexes(ds, n - 1, some)
  }

  ghost predicate Increasing(s: seq<nat>) {
    forall i, j | 0 <= i < j < |s| :: s[i] < s[j]
  }

  /** The indexes are exactly the places of that kind, listed in increasing order. */
  lemma {:induction false} IndexesExact<T>(ds: seq<Option<T>>, n: nat, some: bool)
    requires n <= |ds|
    ensures Increasing(Indexes(ds, n, some)) && forall k | 0 <= k < |Indexes(ds, n, some)| :: Indexes(ds, n, some)[k] < n
    ensures forall i: nat :: i in Indexes(ds, n, some) <==> i < n && ds[i].Some? == some
  {
    if n > 0 {
      IndexesExact(ds, n - 1, some);
    }
  }

  /** What is kept is the decoding at each kept index, in order. */
  lemma {:induction false} KeptExact<T>(ds: seq<Option<T>>, n: nat)
    requires n <= |ds|
    ensures |Kept(ds, n)| == |Indexes(ds, n, true)|
    ensures forall k | 0 <= k < |Kept(ds, n)| ::
              Indexes(ds, n, true)[k] < n && ds[Indexes(ds, n, true)[k]] == Some(Kept(ds, n)[k])
  {
    if n > 0 {
      KeptExact(ds, n - 1);
    }
  }

  /** What is kept, where it was, and everything else. */
  ghost predicate Places<T(!new)>(ds: seq<Option<T>>, kept: seq<T>, skipped: seq<nat>, at: seq<nat>) {
    && |at| == |kept| && Increasing(at) && Increasing(skipped)
    && (forall k | 0 <= k < |at| :: at[k] < |ds| && ds[at[k]] == Some(kept[k]))
    && (forall i: nat :: i in at <==> i < |ds| && ds[i].Some?)
    && (forall i: nat :: i in skipped <==> i < |ds| && ds[i].None?)
  }

  lemma KeptPlaces<T(!new)>(ds: seq<Option<T>>)
    ensures Places(ds, Kept(ds, |ds|), Indexes(ds, |ds|, false), Indexes(ds, |ds|, true))
  {
    KeptExact(ds, |ds|);
    IndexesExact(ds, |ds|, true);
    IndexesExact(ds, |ds|, false);
  }

  /** Nothing is lost silently: every index is kept or skipped, none is both, and the counts add up. */
  lemma {:induction false} Partitioned<T>(ds: seq<Option<T>>, n: nat)
    requires n <= |ds|
    ensures forall i: nat | i < n :: i in Indexes(ds, n, true) <==> i !in Indexes(ds, n, false)
    ensures |Kept(ds, n)| + |Indexes(ds, n, false)| == n
  {
    IndexesExact(ds, n, true);
    IndexesExact(ds, n, false);
    if n > 0 {
      Partitioned(ds, n - 1);
    }
  }

  /** Strict decoding: all of the first `n`, or the first error. */
  function Collect<T, E>(rs: seq<Result<T, E>>, n: nat): (r: Result<seq<T>, E>)
    requires n <= |rs|
    ensures r.Ok? ==> |r.value| == n
  {
    if n == 0 then Ok([])
    else
      var before :- Collect(rs, n - 1);
      var x :- rs[n - 1];
      Ok(before + [x])
  }

  lemma {:induction false} CollectStops<T, E>(rs: seq<Result<T, E>>, i: nat, n: nat)
    requires i < n <= |rs| && Collect(rs, i).Ok? && rs[i].Err?
    ensures Collect(rs, n) == Err(rs[i].error)
  {
    if i < n - 1 { CollectStops(rs, i, n - 1); }
  }

  lemma {:induction false} CollectExact<T, E>(rs: seq<Result<T, E>>, n: nat)
    requires n <= |rs| && Collect(rs, n).Ok?
    ensures forall i | 0 <= i < n :: rs[i] == Ok(Collect(rs, n).value[i])
  {
    if n > 0 { CollectExact(rs, n - 1); }
  }
}
