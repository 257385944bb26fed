/** Canonical signing bytes: the duplicate-key scan, structural removal, sorted re-serialization. */
module Canonical {
  import opened Basics
  import opened Json
  import opened Objects
  import opened Grammar

  // ----- the streaming duplicate-key scan -----

  /** What a scan should answer where the reader reads `r`: go on, unless a key repeats. */
  ghost function Unrepeated(r: Option<(Json, bytes)>): Option<bytes> {
    if r.Some? && NoDuplicates(r.value.0) then Some(r.value.1) else None
  }

  ghost function Prepend<T>(xs: seq<T>, r: Option<(seq<T>, bytes)>): Option<(seq<T>, bytes)> {
    if r.None? then None else Some((xs + r.value.0, r.value.1))
  }

  /** Walks one value without building it. */
  method ScanValue(s: bytes) returns (r: Option<bytes>)
    ensures r == Unrepeated(ReadValue(s))
    ensures r.Some? ==> |r.value| < |s|
    decreases |s|, 0
  {
    var t := SkipSpace(s);
    if t == [] {
      r := None;
    } else if t[0] == '[' {
      r := ScanItems(t[1..]);
    } else if t[0] == '{' {
      r := ScanMembers(t[1..]);
    } else {
      var v := ReadValue(s);
      r := if v.Some? then Some(v.value.1) else None;
    }
  }

  lemma AfterItem(s: bytes, xs: seq<Json>, cur: bytes, first: bool, u: bytes)
    requires ReadItems(s, true) == Prepend(xs, ReadItems(cur, first))
    requires SkipSpace(cur) == [] || SkipSpace(cur)[0] != ']'
    requires ReadComma(SkipSpace(cur), first) == Some(u)
    ensures ReadValue(u).None? ==> ReadItems(s, true).None?
    ensures ReadValue(u).Some? ==>
              ReadItems(s, true) == Prepend(xs + [ReadValue(u).value.0], ReadItems(ReadValue(u).value.1, false))
  {
    if ReadItems(cur, first).Some? {
      var (item, after) := ReadValue(u).value;
      var (items, rest) := ReadItems(after, false).value;
      Regrouped(xs, [item], items);
    }
  }

  method ScanItems(s: bytes) returns (r: Option<bytes>)
    ensures r == match ReadItems(s, true)
                 case None => None
                 case Some(p) => Unrepeated(Some((Arr(p.0), p.1)))
    ensures r.Some? ==> |r.value| < |s|
    decreases |s|, 1
  {
    var cur, first := s, true;
    ghost var seenItems: seq<Json> := [];
    assert ReadItems(s, true).Some? ==> [] + ReadItems(s, true).value.0 == ReadItems(s, true).value.0;
    while true
      invariant |cur| <= |s|
      invariant ReadItems(s, true) == Prepend(seenItems, ReadItems(cur, first))
      invariant NoDuplicates(Arr(seenItems))
      decreases |cur|
    {
      var t := SkipSpace(cur);
      if t != [] && t[0] == ']' {
        assert seenItems + [] == seenItems;
        return Some(t[1..]);
      }
      var u := ReadComma(t, first);
      if u.None? { return None; }
      AfterItem(s, seenItems, cur, first, u.value);
      var next := ScanValue(u.value);
      if next.None? {
        ghost var v := ReadValue(u.value);
        if v.Some? && ReadItems(s, true).Some? {
          assert ReadItems(s, true).value.0[|seenItems|] == v.value.0;
        }
        return None;
      }
      seenItems := seenItems + [ReadValue(u.value).value.0];
      cur, first := next.value, false;
    }
  }

  lemma AfterMember(s: bytes, xs: seq<Member>, cur: bytes, first: bool, u: bytes)
    requires ReadMembers(s, true) == Prepend(xs, ReadMembers(cur, first))
    requires SkipSpace(cur) == [] || SkipSpace(cur)[0] != '}'
    requires ReadComma(SkipSpace(cur), first) == Some(u)
    ensures ReadMembers(s, true).Some? ==> ReadKey(u).Some? && ReadValue(ReadKey(u).value.1).Some?
    ensures ReadKey(u).Some? && ReadValue(ReadKey(u).value.1).Some? ==>
              var (key, v) := ReadKey(u).value;
              var (value, after) := ReadValue(v).value;
              ReadMembers(s, true) == Prepend(xs + [Member(key, value)], ReadMembers(after, false))
  {
    if ReadMembers(cur, first).Some? {
      var (key, v) := ReadKey(u).value;
      var (value, after) := ReadValue(v).value;
      var (ms, rest) := ReadMembers(after, false).value;
      Regrouped(xs, [Member(key, value)], ms);
    }
  }

  lemma Regrouped<T>(a: seq<T>, b: seq<T>, c: seq<T>)
    ensures a + (b + c) == a + b + c
  {
  }

  /** A repeated key, or a member whose value repeats one, spoils every longer object. */
  lemma Spoiled(xs: seq<Member>, m: Member, ms: seq<Member>)
    requires m.key in Keys(xs) || !NoDuplicates(m.value)
    ensures !NoDuplicates(Obj(xs + [m] + ms))
  {
    var all := xs + [m] + ms;
    assert all[|xs|] == m;
    if m.key in Keys(xs) {
      var i :| 0 <= i < |xs| && Keys(xs)[i] == m.key;
      assert Keys(all)[i] == Keys(all)[|xs|];
    }
  }

  lemma Extended(xs: seq<Member>, m: Member)
    requires NoDuplicates(Obj(xs)) && m.key !in Keys(xs) && NoDuplicates(m.value)
    ensures NoDuplicates(Obj(xs + [m]))
  {
    assert Keys(xs + [m]) == Keys(xs) + [m.key];
  }

  method ScanMembers(s: bytes) returns (r: Option<bytes>)
    ensures r == match ReadMembers(s, true)
                 case None => None
                 case Some(p) => Unrepeated(Some((Obj(p.0), p.1)))
    ensures r.Some? ==> |r.value| < |s|
    decreases |s|, 1
  {
    var cur, first := s, true;
    var seen: set<bytes> := {};
    ghost var xs: seq<Member> := [];
    assert ReadMembers(s, true).Some? ==> [] + ReadMembers(s, true).value.0 == ReadMembers(s, true).value.0;
    while true
      invariant |cur| <= |s|
      invariant ReadMembers(s, true) == Prepend(xs, ReadMembers(cur, first))
      invariant NoDuplicates(Obj(xs))
      invariant forall k :: k in seen <==> k in Keys(xs)
      decreases |cur|
    {
      var t := SkipSpace(cur);
      if t != [] && t[0] == '}' {
        assert xs + [] == xs;
        return Some(t[1..]);
      }
      var u := ReadComma(t, first);
      if u.None? { return None; }
      AfterMember(s, xs, cur, first, u.value);
      var key := ReadKey(u.value);
      if key.None? { return None; }
      ghost var whole := ReadMembers(s, true);
      ghost var v := ReadValue(key.value.1);
      if v.Some? && whole.Some? {
        ghost var m := Member(key.value.0, v.value.0);
        if m.key in seen || !NoDuplicates(m.value) {
          Spoiled(xs, m, ReadMembers(v.value.1, false).value.0);
        }
      }
      if key.value.0 in seen { return None; }
      seen := seen + {key.value.0};
      var next := ScanValue(key.value.1);
      if next.None? { return None; }
      Extended(xs, Member(key.value.0, v.value.0));
      assert Keys(xs + [Member(key.value.0, v.value.0)]) == Keys(xs) + [key.value.0];
      xs := xs + [Member(key.value.0, v.value.0)];
      cur, first := next.value, false;
    }
  }

  /** The document read strictly: well formed, and no object at any depth repeats a key. */
  function StrictRead(raw: bytes): (r: Option<Json>)
    ensures r.Some? <==> Read(raw).Some? && NoDuplicates(Read(raw).value)
  {
    var j :- Read(raw);
    if NoDuplicates(j) then Some(j) else None
  }

  /** The scan accepts exactly the well-formed documents without a repeated key. */
  method RejectDuplicateKeys(raw: bytes) returns (ok: bool)
    ensures ok <==> exists j :: Read(raw) == Some(j) && NoDuplicates(j)
    ensures ok <==> StrictRead(raw).Some?
  {
    var rest := ScanValue(raw);
    ok := rest.Some? && SkipSpace(rest.value) == [];
    assert Read(raw).Some? ==> Read(raw) == Some(Read(raw).value);
  }

  // ----- canonical bytes -----

  function RemoveAll(ms: seq<Member>, omit: seq<bytes>): seq<Member>
    decreases |omit|
  {
    if omit == [] then ms else RemoveAll(Remove(ms, omit[0]), omit[1..])
  }

  /** The content of a document: its tree without the given top-level fields. */
  function Content(raw: bytes, omit: seq<bytes>): Option<Json> {
    var j :- StrictRead(raw);
    match Normal(j)
    case Obj(ms) => Some(Obj(RemoveAll(ms, omit)))
    case _ => None
  }

  function CanonicalBytes(raw: bytes, omit: seq<bytes>): Option<bytes> {
    var j :- Content(raw, omit);
    Some(Print(j))
  }

  method ComputeCanonicalBytes(raw: bytes, omit: seq<bytes>) returns (r: Option<bytes>)
    ensures r == CanonicalBytes(raw, omit)
  {
    var ok := RejectDuplicateKeys(raw);
    if !ok { return None; }
    var value := Normal(Read(raw).value);
    if !value.Obj? { return None; }
    var fields := value.members;
    for i := 0 to |omit|
      invariant RemoveAll(value.members, omit) == RemoveAll(fields, omit[i..])
    {
      fields := Remove(fields, omit[i]);
      assert omit[i..][1..] == omit[i + 1..];
    }
    r := Some(Print(Obj(fields)));
  }

  const SIGNATURE: bytes := "signature"

  function SigningBytes(raw: bytes): Option<bytes> {
    CanonicalBytes(raw, [SIGNATURE])
  }

  /** The signed content: everything but the top-level signature. */
  function Signed(raw: bytes): Option<Json> {
    Content(raw, [SIGNATURE])
  }

  lemma {:induction false} RemoveAllValues(ms: seq<Member>, omit: seq<bytes>)
    requires Values(ms)
    ensures Values(RemoveAll(ms, omit))
    decreases |omit|
  {
    if omit != [] {
      RemoveMembers(ms, omit[0]);
      RemoveAllValues(Remove(ms, omit[0]), omit[1..]);
    }
  }

  lemma ContentValue(raw: bytes, omit: seq<bytes>)
    requires Content(raw, omit).Some?
    ensures Content(raw, omit).value.Obj? && Value(Content(raw, omit).value)
  {
    var j := Read(raw).value;
    ReadWellFormed(raw);
    NormalValue(j);
    ValuesObject(Normal(j).members);
    RemoveAllValues(Normal(j).members, omit);
    ValuesObject(RemoveAll(Normal(j).members, omit));
  }

  /** Two documents have the same canonical bytes exactly when they have the same content. */
  lemma CanonicalBytesCharacteriseContent(a: bytes, b: bytes, omit: seq<bytes>)
    requires CanonicalBytes(a, omit).Some? && CanonicalBytes(b, omit).Some?
    ensures CanonicalBytes(a, omit) == CanonicalBytes(b, omit) <==> Content(a, omit) == Content(b, omit)
  {
    ContentValue(a, omit);
    ContentValue(b, omit);
    if CanonicalBytes(a, omit) == CanonicalBytes(b, omit) {
      PrintInjective(Content(a, omit).value, Content(b, omit).value);
    }
  }

  lemma ValueNoDuplicates(j: Json)
    requires Ordered(j)
    ensures NoDuplicates(j)
    decreases j
  {
    match j
    case Arr(items) => forall i | 0 <= i < |items| ensures NoDuplicates(items[i]) { ValueNoDuplicates(items[i]); }
    case Obj(ms) =>
      forall i, k | 0 <= i < k < |ms| ensures Keys(ms)[i] != Keys(ms)[k] { LessAsymmetric(Keys(ms)[i], Keys(ms)[k]); }
      forall i | 0 <= i < |ms| ensures NoDuplicates(ms[i].value) { ValueNoDuplicates(ms[i].value); }
    case _ =>
  }

  /** A printed value reads back strictly, as itself. */
  lemma PrintedStrict(j: Json)
    requires Value(j)
    ensures StrictRead(Print(j)) == Some(j) && Normal(j) == j
  {
    ReadPrinted(j);
    ValueNoDuplicates(j);
    NormalOfOrdered(j);
  }

  /** Canonical bytes are their own canonical form. */
  lemma CanonicalIdempotent(raw: bytes, omit: seq<bytes>)
    requires CanonicalBytes(raw, omit).Some?
    ensures CanonicalBytes(CanonicalBytes(raw, omit).value, []) == CanonicalBytes(raw, omit)
  {
    ContentValue(raw, omit);
    PrintedStrict(Content(raw, omit).value);
  }

  /** White space and escape spelling never matter: all spellings of a tree sign the same. */
  lemma SpellingIrrelevant(a: bytes, b: bytes, j: Json, pre: bytes, c: Syntax, post: bytes,
                           pre': bytes, c': Syntax, post': bytes)
    requires Spells(a, pre, c, post, j) && Spells(b, pre', c', post', j)
    ensures SigningBytes(a) == SigningBytes(b)
  {
    ReadExact(a, j);
    ReadExact(b, j);
  }

  /**
   White space, escape spelling and key order never matter: two documents whose trees are the same up to the
   order of members, at any depth, have the same canonical bytes, whatever fields are omitted.
   */
  lemma OrderIrrelevant(a: bytes, b: bytes, j: Json, k: Json, omit: seq<bytes>)
    requires StrictRead(a) == Some(j) && StrictRead(b) == Some(k) && SameUpToOrder(j, k)
    ensures CanonicalBytes(a, omit) == CanonicalBytes(b, omit) && SigningBytes(a) == SigningBytes(b)
  {
    NormalExact(j, k);
  }

  /** And nothing else is forgotten: objects with equal canonical bytes are the same up to the order of members. */
  lemma CanonicalBytesExact(a: bytes, b: bytes, j: Json, k: Json)
    requires StrictRead(a) == Some(j) && StrictRead(b) == Some(k) && j.Obj? && k.Obj?
    ensures CanonicalBytes(a, []) == CanonicalBytes(b, []) <==> SameUpToOrder(j, k)
  {
    NormalExact(j, k);
    CanonicalBytesCharacteriseContent(a, b, []);
  }

  lemma {:induction false} RemovedOnly(ms: seq<Member>, q: bytes)
    requires AscendingKeys(ms)
    ensures Lookup(RemoveAll(ms, [SIGNATURE]), q) == if q == SIGNATURE then None else Lookup(ms, q)
  {
    assert RemoveAll(ms, [SIGNATURE]) == RemoveAll(Remove(ms, SIGNATURE), []) == Remove(ms, SIGNATURE);
    RemoveLookup(ms, SIGNATURE, q);
  }

  /** The top-level members of an accepted document, as an ordered map. */
  ghost function TopLevel(raw: bytes): seq<Member>
    requires SigningBytes(raw).Some?
  {
    Normal(Read(raw).value).members
  }

  ghost predicate SameButSignature(ms: seq<Member>, ns: seq<Member>) {
    forall q :: q != SIGNATURE ==> Lookup(ms, q) == Lookup(ns, q)
  }

  lemma TopLevelAscending(raw: bytes)
    requires SigningBytes(raw).Some?
    ensures Values(TopLevel(raw))
  {
    ReadWellFormed(raw);
    NormalValue(Read(raw).value);
    ValuesObject(TopLevel(raw));
  }

  /**
   Equal signing bytes mean equal values under every top-level key but `signature`, and nothing
   less: a nested `signature` is content like any other.
   */
  lemma SigningBytesCharacteriseMembers(a: bytes, b: bytes)
    requires SigningBytes(a).Some? && SigningBytes(b).Some?
    ensures SigningBytes(a) == SigningBytes(b) <==>
            SameButSignature(TopLevel(a), TopLevel(b))
  {
    CanonicalBytesCharacteriseContent(a, b, [SIGNATURE]);
    TopLevelAscending(a);
    TopLevelAscending(b);
    var ms, ns := RemoveAll(TopLevel(a), [SIGNATURE]), RemoveAll(TopLevel(b), [SIGNATURE]);
    assert Signed(a) == Some(Obj(ms)) && Signed(b) == Some(Obj(ns));
    forall q ensures Lookup(ms, q) == if q == SIGNATURE then None else Lookup(TopLevel(a), q) {
      RemovedOnly(TopLevel(a), q);
    }
    forall q ensures Lookup(ns, q) == if q == SIGNATURE then None else Lookup(TopLevel(b), q) {
      RemovedOnly(TopLevel(b), q);
    }
    RemoveAllValues(TopLevel(a), [SIGNATURE]);
    RemoveAllValues(TopLevel(b), [SIGNATURE]);
    if SameButSignature(TopLevel(a), TopLevel(b)) {
      SameLookups(ms, ns);
    }
    if ms == ns {
      forall q | q != SIGNATURE ensures Lookup(TopLevel(a), q) == Lookup(TopLevel(b), q) {
        assert Lookup(ms, q) == Lookup(ns, q);
      }
    }
  }
}
