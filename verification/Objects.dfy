/** JSON objects as ordered maps: what `serde_json::Value` does to the members of a document. */
module Objects {
  import opened Basics
  import opened Text
  import opened Json

  function Lookup(ms: seq<Member>, key: bytes): (v: Option<Json>)
    ensures v.Some? ==> Member(key, v.value) in ms
    ensures v.None? <==> key !in Keys(ms)
  {
    if ms == [] then None
    else if ms[0].key == key then Some(ms[0].value)
    else
      assert Keys(ms)[1..] == Keys(ms[1..]);
      assert key in Keys(ms) <==> key in Keys(ms)[1..];
      Lookup(ms[1..], key)
  }

  /** `BTreeMap::insert`: a present key keeps its place and takes the new value. */
  function Insert(ms: seq<Member>, key: bytes, value: Json): seq<Member> {
    if ms == [] then [Member(key, value)]
    else if key == ms[0].key then [Member(key, value)] + ms[1..]
    else if Less(key, ms[0].key) then [Member(key, value)] + ms
    else [ms[0]] + Insert(ms[1..], key, value)
  }

  /** `BTreeMap::remove`. */
  function Remove(ms: seq<Member>, key: bytes): seq<Member> {
    if ms == [] then []
    else if ms[0].key == key then ms[1..]
    else [ms[0]] + Remove(ms[1..], key)
  }

  ghost predicate AscendingKeys(ms: seq<Member>) {
    forall i, j | 0 <= i < j < |ms| :: Less(ms[i].key, ms[j].key)
  }

  lemma {:induction false} InsertLookup(ms: seq<Member>, key: bytes, value: Json, q: bytes)
    ensures Lookup(Insert(ms, key, value), q) == if q == key then Some(value) else Lookup(ms, q)
  {
    if ms != [] && key != ms[0].key && !Less(key, ms[0].key) {
      InsertLookup(ms[1..], key, value, q);
    }
  }

  lemma {:induction false} InsertMembers(ms: seq<Member>, key: bytes, value: Json)
    ensures forall m | m in Insert(ms, key, value) :: m == Member(key, value) || m in ms
  {
    if ms != [] {
      InsertMembers(ms[1..], key, value);
    }
  }

  lemma {:induction false} InsertAscending(ms: seq<Member>, key: bytes, value: Json)
    requires AscendingKeys(ms)
    ensures AscendingKeys(Insert(ms, key, value))
  {
    if ms != [] && key != ms[0].key {
      if Less(key, ms[0].key) {
        forall j | 0 <= j < |ms| ensures Less(key, ms[j].key) {
          if j > 0 { LessTransitive(key, ms[0].key, ms[j].key); }
        }
      } else {
        LessTotal(key, ms[0].key);
        InsertAscending(ms[1..], key, value);
        InsertMembers(ms[1..], key, value);
        var t := Insert(ms[1..], key, value);
        forall j | 0 <= j < |t| ensures Less(ms[0].key, t[j].key) {
          assert t[j] in t;
        }
      }
    }
  }

  lemma {:induction false} InsertLast(ms: seq<Member>, key: bytes, value: Json)
    requires forall i | 0 <= i < |ms| :: Less(ms[i].key, key)
    ensures Insert(ms, key, value) == ms + [Member(key, value)]
  {
    if ms != [] {
      LessAsymmetric(ms[0].key, key);
      InsertLast(ms[1..], key, value);
    }
  }

  lemma {:induction false} RemoveMembers(ms: seq<Member>, key: bytes)
    ensures forall m | m in Remove(ms, key) :: m in ms
    ensures AscendingKeys(ms) ==> AscendingKeys(Remove(ms, key))
  {
    if ms != [] && ms[0].key != key {
      RemoveMembers(ms[1..], key);
      var t := Remove(ms[1..], key);
      if AscendingKeys(ms) {
        forall j | 0 <= j < |t| ensures Less(ms[0].key, t[j].key) {
          assert t[j] in ms[1..];
        }
      }
    }
  }

  lemma AscendingTail(ms: seq<Member>, q: bytes)
    requires AscendingKeys(ms) && ms != [] && (q == ms[0].key || Less(q, ms[0].key))
    ensures Lookup(ms[1..], q) == None
  {
    forall i | 0 <= i < |ms[1..]| ensures Keys(ms[1..])[i] != q {
      if q != ms[0].key { LessTransitive(q, ms[0].key, ms[i + 1].key); }
      LessAsymmetric(q, ms[i + 1].key);
    }
  }

  lemma {:induction false} RemoveLookup(ms: seq<Member>, key: bytes, q: bytes)
    requires AscendingKeys(ms)
    ensures Lookup(Remove(ms, key), q) == if q == key then None else Lookup(ms, q)
  {
    if ms != [] {
      if ms[0].key == key {
        AscendingTail(ms, key);
      } else {
        RemoveLookup(ms[1..], key, q);
      }
    }
  }

  lemma {:induction false} MemberLookup(ms: seq<Member>, i: nat)
    requires Distinct(Keys(ms)) && i < |ms|
    ensures Lookup(ms, ms[i].key) == Some(ms[i].value)
  {
    if i > 0 {
      assert Keys(ms)[0] != Keys(ms)[i];
      assert Keys(ms[1..]) == Keys(ms)[1..];
      MemberLookup(ms[1..], i - 1);
    }
  }

  lemma AscendingDistinct(ms: seq<Member>)
    requires AscendingKeys(ms)
    ensures Distinct(Keys(ms)) && Ascending(Keys(ms))
  {
    forall i, j | 0 <= i < j < |ms| ensures Keys(ms)[i] != Keys(ms)[j] && Less(Keys(ms)[i], Keys(ms)[j]) {
      LessAsymmetric(ms[i].key, ms[j].key);
    }
  }

  /** An ordered map is determined by its lookups. */
  lemma {:induction false} SameLookups(ms: seq<Member>, ns: seq<Member>)
    requires AscendingKeys(ms) && AscendingKeys(ns)
    requires forall q :: Lookup(ms, q) == Lookup(ns, q)
    ensures ms == ns
  {
    assert ms != [] ==> Lookup(ns, ms[0].key).Some?;
    assert ns != [] ==> Lookup(ms, ns[0].key).Some?;
    if ms != [] && ns != [] {
      var a, b := ms[0].key, ns[0].key;
      LessTotal(a, b);
      if Less(a, b) { AscendingTail(ns, a); LessAsymmetric(a, b); }
      if Less(b, a) { AscendingTail(ms, b); LessAsymmetric(b, a); }
      assert a == b;
      AscendingTail(ms, a);
      AscendingTail(ns, b);
      forall q ensures Lookup(ms[1..], q) == Lookup(ns[1..], q) {
        assert Lookup(ms, q) == Lookup(ns, q);
      }
      SameLookups(ms[1..], ns[1..]);
      assert ms == [ms[0]] + ms[1..] && ns == [ns[0]] + ns[1..];
    }
  }

  // ----- the tree a document decodes to -----

  /** Last-key-wins decoding into ordered maps, at every depth. */
  function Normal(j: Json): Json
    decreases j
  {
    match j
    case Arr(items) => Arr(NormalItems(items))
    case Obj(ms) => Obj(InsertAll([], ms))
    case _ => j
  }

  function NormalItems(items: seq<Json>): (r: seq<Json>)
    ensures |r| == |items| && forall i | 0 <= i < |items| :: r[i] == Normal(items[i])
    decreases items
  {
    if items == [] then [] else [Normal(items[0])] + NormalItems(items[1..])
  }

  function InsertAll(acc: seq<Member>, ms: seq<Member>): seq<Member>
    decreases ms
  {
    if ms == [] then acc
    else InsertAll(Insert(acc, ms[0].key, Normal(ms[0].value)), ms[1..])
  }

  /** First-key-wins decoding, the other way to settle a repeated key. */
  ghost function NormalFirst(j: Json): Json
    decreases j
  {
    match j
    case Arr(items) => Arr(NormalFirstItems(items))
    case Obj(ms) => Obj(InsertNew([], ms))
    case _ => j
  }

  ghost function NormalFirstItems(items: seq<Json>): seq<Json>
    decreases items
  {
    if items == [] then [] else [NormalFirst(items[0])] + NormalFirstItems(items[1..])
  }

  ghost function InsertNew(acc: seq<Member>, ms: seq<Member>): seq<Member>
    decreases ms
  {
    if ms == [] then acc
    else if ms[0].key in Keys(acc) then InsertNew(acc, ms[1..])
    else InsertNew(Insert(acc, ms[0].key, NormalFirst(ms[0].value)), ms[1..])
  }

  lemma InsertKeys(ms: seq<Member>, key: bytes, value: Json, q: bytes)
    ensures q in Keys(Insert(ms, key, value)) <==> q == key || q in Keys(ms)
  {
    InsertLookup(ms, key, value, q);
  }

  /** Without repeated keys the two decodings agree: the document has one reading. */
  lemma {:induction false} OneReading(j: Json)
    requires NoDuplicates(j)
    ensures NormalFirst(j) == Normal(j)
    decreases j
  {
    match j
    case Arr(items) => OneReadingItems(items);
    case Obj(ms) => OneReadingMembers([], ms);
    case _ =>
  }

  lemma {:induction false} OneReadingItems(items: seq<Json>)
    requires forall i | 0 <= i < |items| :: NoDuplicates(items[i])
    ensures NormalFirstItems(items) == NormalItems(items)
    decreases items
  {
    if items != [] {
      OneReading(items[0]);
      OneReadingItems(items[1..]);
    }
  }

  lemma {:induction false} OneReadingMembers(acc: seq<Member>, ms: seq<Member>)
    requires Distinct(Keys(ms)) && forall i | 0 <= i < |ms| :: ms[i].key !in Keys(acc)
    requires forall i | 0 <= i < |ms| :: NoDuplicates(ms[i].value)
    ensures InsertNew(acc, ms) == InsertAll(acc, ms)
    decreases ms
  {
    if ms != [] {
      OneReading(ms[0].value);
      var next := Insert(acc, ms[0].key, Normal(ms[0].value));
      assert Keys(ms[1..]) == Keys(ms)[1..];
      forall i | 0 <= i < |ms[1..]| ensures ms[1..][i].key !in Keys(next) {
        InsertKeys(acc, ms[0].key, Normal(ms[0].value), ms[1..][i].key);
        assert Keys(ms)[0] != Keys(ms)[i + 1];
      }
      OneReadingMembers(next, ms[1..]);
    }
  }

  // ----- decoded trees are ordered and well formed -----

  ghost predicate Value(j: Json) {
    Ordered(j) && WellFormed(j)
  }

  ghost predicate Values(ms: seq<Member>) {
    AscendingKeys(ms) && forall m | m in ms :: ValidUtf8(m.key) && Value(m.value)
  }

  lemma ValuesObject(ms: seq<Member>)
    ensures Values(ms) <==> Value(Obj(ms))
  {
    if Values(ms) {
      AscendingDistinct(ms);
      assert forall i | 0 <= i < |ms| :: ms[i] in ms;
    }
    if Value(Obj(ms)) {
      forall i, j | 0 <= i < j < |ms| ensures Less(ms[i].key, ms[j].key) {
        assert Less(Keys(ms)[i], Keys(ms)[j]);
      }
    }
  }

  lemma {:induction false} NormalValue(j: Json)
    requires WellFormed(j)
    ensures Value(Normal(j))
    decreases j
  {
    match j
    case Arr(items) =>
      forall i | 0 <= i < |items| ensures Value(Normal(items[i])) { NormalValue(items[i]); }
    case Obj(ms) =>
      InsertAllValues([], ms);
      ValuesObject(InsertAll([], ms));
    case _ =>
  }

  lemma InsertValues(ms: seq<Member>, key: bytes, value: Json)
    requires Values(ms) && ValidUtf8(key) && Value(value)
    ensures Values(Insert(ms, key, value))
  {
    InsertAscending(ms, key, value);
    InsertMembers(ms, key, value);
  }

  lemma {:induction false} InsertAllValues(acc: seq<Member>, ms: seq<Member>)
    requires WellFormedMembers(ms) && Values(acc)
    ensures Values(InsertAll(acc, ms))
    decreases ms
  {
    if ms != [] {
      NormalValue(ms[0].value);
      InsertValues(acc, ms[0].key, Normal(ms[0].value));
      InsertAllValues(Insert(acc, ms[0].key, Normal(ms[0].value)), ms[1..]);
    }
  }

  /** Decoding leaves an ordered tree as it is. */
  lemma {:induction false} NormalOfOrdered(j: Json)
    requires Ordered(j)
    ensures Normal(j) == j
    decreases j
  {
    match j
    case Arr(items) =>
      forall i | 0 <= i < |items| ensures Normal(items[i]) == items[i] { NormalOfOrdered(items[i]); }
    case Obj(ms) =>
      forall i, k | 0 <= i < k < |ms| ensures Less(ms[i].key, ms[k].key) {
        assert Less(Keys(ms)[i], Keys(ms)[k]);
      }
      NormalOfAscending([], ms);
      assert [] + ms == ms;
    case _ =>
  }

  lemma {:induction false} NormalOfAscending(acc: seq<Member>, ms: seq<Member>)
    requires AscendingKeys(acc + ms) && forall i | 0 <= i < |ms| :: Ordered(ms[i].value)
    ensures InsertAll(acc, ms) == acc + ms
    decreases ms
  {
    if ms != [] {
      NormalOfOrdered(ms[0].value);
      forall i | 0 <= i < |acc| ensures Less(acc[i].key, ms[0].key) {
        assert acc[i] == (acc + ms)[i] && ms[0] == (acc + ms)[|acc|];
      }
      InsertLast(acc, ms[0].key, ms[0].value);
      assert acc + [Member(ms[0].key, ms[0].value)] + ms[1..] == acc + ms;
      NormalOfAscending(acc + [ms[0]], ms[1..]);
    } else {
      assert acc + ms == acc;
    }
  }

  // ----- key order -----

  lemma {:induction false} InsertAllLookup(acc: seq<Member>, ms: seq<Member>, q: bytes)
    requires Distinct(Keys(ms))
    ensures Lookup(InsertAll(acc, ms), q) ==
            match Lookup(ms, q) case Some(v) => Some(Normal(v)) case None => Lookup(acc, q)
    decreases ms
  {
    if ms != [] {
      var v := Normal(ms[0].value);
      assert Keys(ms[1..]) == Keys(ms)[1..];
      InsertAllLookup(Insert(acc, ms[0].key, v), ms[1..], q);
      InsertLookup(acc, ms[0].key, v, q);
    }
  }

  lemma {:induction false} InsertAllAscending(acc: seq<Member>, ms: seq<Member>)
    requires AscendingKeys(acc)
    ensures AscendingKeys(InsertAll(acc, ms))
    decreases ms
  {
    if ms != [] {
      InsertAscending(acc, ms[0].key, Normal(ms[0].value));
      InsertAllAscending(Insert(acc, ms[0].key, Normal(ms[0].value)), ms[1..]);
    }
  }

  /** The same tree but for the order of members, in every object at every depth. */
  ghost predicate SameUpToOrder(j: Json, k: Json)
    decreases j
  {
    match j
    case Arr(items) =>
      k.Arr? && |items| == |k.items| && forall i | 0 <= i < |items| :: SameUpToOrder(items[i], k.items[i])
    case Obj(ms) =>
      && k.Obj? && (forall q :: q in Keys(ms) <==> q in Keys(k.members))
      && forall i, l | 0 <= i < |ms| && 0 <= l < |k.members| && ms[i].key == k.members[l].key ::
           SameUpToOrder(ms[i].value, k.members[l].value)
    case _ => j == k
  }

  /** The same keys, each with values that decode alike. */
  ghost predicate MembersAlike(ms: seq<Member>, ns: seq<Member>) {
    && (forall q :: q in Keys(ms) <==> q in Keys(ns))
    && forall i, l | 0 <= i < |ms| && 0 <= l < |ns| && ms[i].key == ns[l].key :: Normal(ms[i].value) == Normal(ns[l].value)
  }

  lemma DecodedAlike(ms: seq<Member>, ns: seq<Member>)
    requires Distinct(Keys(ms)) && Distinct(Keys(ns)) && InsertAll([], ms) == InsertAll([], ns)
    ensures MembersAlike(ms, ns)
  {
    forall q ensures q in Keys(ms) <==> q in Keys(ns) {
      InsertAllLookup([], ms, q);
      InsertAllLookup([], ns, q);
    }
    forall i, l | 0 <= i < |ms| && 0 <= l < |ns| && ms[i].key == ns[l].key
      ensures Normal(ms[i].value) == Normal(ns[l].value)
    {
      InsertAllLookup([], ms, ms[i].key);
      InsertAllLookup([], ns, ns[l].key);
      MemberLookup(ms, i);
      MemberLookup(ns, l);
    }
  }

  lemma LookedUpAlike(ms: seq<Member>, ns: seq<Member>, q: bytes)
    requires Distinct(Keys(ms)) && Distinct(Keys(ns)) && MembersAlike(ms, ns)
    ensures Lookup(InsertAll([], ms), q) == Lookup(InsertAll([], ns), q)
  {
    InsertAllLookup([], ms, q);
    InsertAllLookup([], ns, q);
    if q in Keys(ms) {
      var i :| 0 <= i < |ms| && Keys(ms)[i] == q;
      var l :| 0 <= l < |ns| && Keys(ns)[l] == q;
      MemberLookup(ms, i);
      MemberLookup(ns, l);
      assert ms[i].key == ns[l].key;
    }
  }

  /** Objects decode to one ordered map exactly when their members are alike. */
  lemma MembersExact(ms: seq<Member>, ns: seq<Member>)
    requires Distinct(Keys(ms)) && Distinct(Keys(ns))
    ensures InsertAll([], ms) == InsertAll([], ns) <==> MembersAlike(ms, ns)
  {
    if InsertAll([], ms) == InsertAll([], ns) { DecodedAlike(ms, ns); }
    if MembersAlike(ms, ns) {
      forall q ensures Lookup(InsertAll([], ms), q) == Lookup(InsertAll([], ns), q) { LookedUpAlike(ms, ns, q); }
      InsertAllAscending([], ms);
      InsertAllAscending([], ns);
      SameLookups(InsertAll([], ms), InsertAll([], ns));
    }
  }

  lemma SameReflexive(j: Json)
    requires NoDuplicates(j)
    ensures SameUpToOrder(j, j)
  {
    NormalExact(j, j);
  }

  /** Shuffling the members of an object leaves it the same up to order. */
  lemma Shuffled(ms: seq<Member>, ns: seq<Member>)
    requires multiset(ms) == multiset(ns) && NoDuplicates(Obj(ms)) && NoDuplicates(Obj(ns))
    ensures SameUpToOrder(Obj(ms), Obj(ns))
  {
    forall i, l | 0 <= i < |ms| && 0 <= l < |ns| && ms[i].key == ns[l].key ensures SameUpToOrder(ms[i].value, ns[l].value) {
      assert ms[i] in multiset(ns);
      var k :| 0 <= k < |ns| && ns[k] == ms[i];
      assert Keys(ns)[k] == Keys(ns)[l];
      SameReflexive(ms[i].value);
    }
    forall q ensures q in Keys(ms) <==> q in Keys(ns) {
      SameKeys(ms, ns, q);
      SameKeys(ns, ms, q);
    }
  }

  lemma SameKeys(ms: seq<Member>, ns: seq<Member>, q: bytes)
    requires multiset(ms) == multiset(ns)
    ensures q in Keys(ms) ==> q in Keys(ns)
  {
    if q in Keys(ms) {
      var i :| 0 <= i < |ms| && Keys(ms)[i] == q;
      assert ms[i] in multiset(ns);
      var k :| 0 <= k < |ns| && ns[k] == ms[i];
      assert Keys(ns)[k] == q;
    }
  }

  /** Documents without repeated keys decode to the same tree exactly when they are the same up to order. */
  lemma {:induction false} NormalExact(j: Json, k: Json)
    requires NoDuplicates(j) && NoDuplicates(k)
    ensures Normal(j) == Normal(k) <==> SameUpToOrder(j, k)
    decreases j, 1
  {
    match j
    case Arr(items) => if k.Arr? { ItemsExact(items, k.items); }
    case Obj(ms) =>
      if k.Obj? {
        MembersExact(ms, k.members);
        forall i, l | 0 <= i < |ms| && 0 <= l < |k.members|
          ensures Normal(ms[i].value) == Normal(k.members[l].value) <==> SameUpToOrder(ms[i].value, k.members[l].value)
        {
          NormalExact(ms[i].value, k.members[l].value);
        }
      }
    case _ =>
  }

  lemma ItemsExact(items: seq<Json>, others: seq<Json>)
    requires NoDuplicates(Arr(items)) && NoDuplicates(Arr(others))
    ensures Normal(Arr(items)) == Normal(Arr(others)) <==> SameUpToOrder(Arr(items), Arr(others))
    decreases Arr(items), 0
  {
    if |items| == |others| {
      forall i | 0 <= i < |items|
        ensures NormalItems(items)[i] == NormalItems(others)[i] <==> SameUpToOrder(items[i], others[i])
      {
        NormalExact(items[i], others[i]);
      }
    }
  }
}
