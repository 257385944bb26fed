/** Byte strings, optional values and results, and the byte order of ordered containers. */
module Basics {

  // Every text and file is a byte string. A byte is written as the character with that code,
  // so that literals read as the ASCII text they stand for. Characters above 0xFF are not bytes.
  type bytes = string

  ghost predicate IsBytes(b: bytes) {
    forall i | 0 <= i < |b| :: b[i] as int < 256
  }

  datatype Option<+T> = None | Some(value: T) {
    predicate IsFailure() {
      None?
    }
    function PropagateFailure<U>(): Option<U>
      requires None?
    {
      None
    }
    function Extract(): T
      requires Some?
    {
      value
    }
  }

  datatype Result<+T, +E> = Ok(value: T) | Err(error: E) {
    predicate IsFailure() {
      Err?
    }
    function PropagateFailure<U>(): Result<U, E>
      requires Err?
    {
      Err(error)
    }
    function Extract(): T
      requires Ok?
    {
      value
    }
  }

  /** Lexicographic byte order: the order of Rust's `str`, hence of `BTreeMap` keys. */
  predicate Less(a: bytes, b: bytes) {
    b != [] && (a == [] || a[0] < b[0] || (a[0] == b[0] && Less(a[1..], b[1..])))
  }

  lemma LessIrreflexive(a: bytes)
    ensures !Less(a, a)
  {
  }

  lemma {:induction false} LessTransitive(a: bytes, b: bytes, c: bytes)
    requires Less(a, b) && Less(b, c)
    ensures Less(a, c)
  {
    if a != [] && a[0] == b[0] == c[0] {
      LessTransitive(a[1..], b[1..], c[1..]);
    }
  }

  lemma {:induction false} LessTotal(a: bytes, b: bytes)
    ensures Less(a, b) || a == b || Less(b, a)
  {
    if a != [] && b != [] && a[0] == b[0] {
      LessTotal(a[1..], b[1..]);
      assert a == [a[0]] + a[1..] && b == [b[0]] + b[1..];
    }
  }

  lemma LessAsymmetric(a: bytes, b: bytes)
    requires Less(a, b)
    ensures !Less(b, a) && a != b
  {
    if Less(b, a) {
      LessTransitive(a, b, a);
    }
    LessIrreflexive(a);
  }

  predicate Distinct<T(==)>(s: seq<T>) {
    forall i, j | 0 <= i < j < |s| :: s[i] != s[j]
  }

  // ----- ordered sets of byte strings (`BTreeSet<String>`), kept as their iteration order -----

  ghost predicate Ascending(s: seq<bytes>) {
    forall i, j | 0 <= i < j < |s| :: Less(s[i], s[j])
  }

  /** `BTreeSet::insert`. */
  function SetInsert(s: seq<bytes>, x: bytes): (r: seq<bytes>)
    ensures forall y :: y in r <==> y == x || y in s
  {
    if s == [] then [x]
    else if x == s[0] then s
    else if Less(x, s[0]) then [x] + s
    else [s[0]] + SetInsert(s[1..], x)
  }

  lemma {:induction false} SetInsertAscending(s: seq<bytes>, x: bytes)
    requires Ascending(s)
    ensures Ascending(SetInsert(s, x))
  {
    if s != [] && x != s[0] {
      if Less(x, s[0]) {
        forall j | 0 <= j < |s| ensures Less(x, s[j]) {
          if j > 0 { LessTransitive(x, s[0], s[j]); }
        }
      } else {
        LessTotal(x, s[0]);
        SetInsertAscending(s[1..], x);
        var t := SetInsert(s[1..], x);
        forall j | 0 <= j < |t| ensures Less(s[0], t[j]) {
          assert t[j] in t;
          assert t[j] == x || t[j] in s[1..];
        }
      }
    }
  }

  /** An ascending sequence is determined by its elements. */
  lemma {:induction false} AscendingUnique(s: seq<bytes>, t: seq<bytes>)
    requires Ascending(s) && Ascending(t)
    requires forall y :: y in s <==> y in t
    ensures s == t
  {
    assert s != [] ==> s[0] in t;
    assert t != [] ==> t[0] in s;
    if s != [] && t != [] {
      AscendingHead(s, t);
      AscendingHead(t, s);
      if s[0] != t[0] { LessAsymmetric(s[0], t[0]); }
      LessIrreflexive(s[0]);
      forall y ensures y in s[1..] <==> y in t[1..] {
        assert y in s <==> y == s[0] || y in s[1..];
        assert y in t <==> y == t[0] || y in t[1..];
      }
      AscendingUnique(s[1..], t[1..]);
      assert s == [s[0]] + s[1..] && t == [t[0]] + t[1..];
    }
  }

  lemma AscendingHead(s: seq<bytes>, t: seq<bytes>)
    requires Ascending(s) && Ascending(t) && s != [] && t != []
    requires forall y | y in s :: y in t
    ensures t[0] == s[0] || Less(t[0], s[0])
  {
    assert s[0] in t;
    var j :| 0 <= j < |t| && t[j] == s[0];
  }
}
