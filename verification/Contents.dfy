/** What canonical bytes, signing bytes and signed documents are, in terms of the members that a document lists. */
module Contents {
  import opened Basics
  import opened Text
  import opened Json
  import opened Objects
  import opened Canonical
  import opened Signing

  /** The members whose keys are not omitted, as the document lists them. */
  ghost function Without(ms: seq<Member>, omit: seq<bytes>): seq<Member> {
    if ms == [] then []
    else if ms[0].key in omit then Without(ms[1..], omit)
    else [ms[0]] + Without(ms[1..], omit)
  }

  /** A document that is an object and repeats no key. */
  ghost predicate Lists(raw: bytes, ms: seq<Member>) {
    Read(raw) == Some(Obj(ms)) && NoDuplicates(Obj(ms))
  }

  /** The compact spelling of the object with these members, all keys in ascending order. */
  ghost predicate Compact(ms: seq<Member>, k: Json, b: bytes) {
    SameUpToOrder(Obj(ms), k) && Ordered(k) && b == Print(k)
  }

  ghost predicate CanonicalOf(raw: bytes, omit: seq<bytes>, ms: seq<Member>, k: Json, b: bytes) {
    Lists(raw, ms) && Compact(Without(ms, omit), k, b)
  }

  lemma {:induction false} WithoutLookup(ms: seq<Member>, omit: seq<bytes>, q: bytes)
    ensures Lookup(Without(ms, omit), q) == if q in omit then None else Lookup(ms, q)
  {
    if ms != [] { WithoutLookup(ms[1..], omit, q); }
  }

  ghost predicate Unrepeated(ms: seq<Member>) {
    forall i | 0 <= i < |ms| :: NoDuplicates(ms[i].value)
  }

  /** The members of an object that was read, without repeats at any depth. */
  ghost predicate Sound(ms: seq<Member>) {
    Distinct(Keys(ms)) && Unrepeated(ms) && WellFormedMembers(ms)
  }

  lemma UnrepeatedStep(m: Member, ms: seq<Member>)
    ensures Unrepeated([m] + ms) <==> NoDuplicates(m.value) && Unrepeated(ms)
  {
    var all := [m] + ms;
    if Unrepeated(all) {
      assert all[0] == m;
      forall i | 0 <= i < |ms| ensures NoDuplicates(ms[i].value) { assert all[i + 1] == ms[i]; }
    }
  }

  lemma SoundStep(m: Member, ms: seq<Member>)
    ensures Sound([m] + ms) <==>
            Sound(ms) && Lookup(ms, m.key) == None && NoDuplicates(m.value) && ValidUtf8(m.key) && WellFormed(m.value)
  {
    KeysStep(m, ms);
    UnrepeatedStep(m, ms);
    WellFormedStep(m, ms);
  }

  lemma WellFormedStep(m: Member, ms: seq<Member>)
    ensures WellFormedMembers([m] + ms) <==> ValidUtf8(m.key) && WellFormed(m.value) && WellFormedMembers(ms)
  {
    var all := [m] + ms;
    if WellFormedMembers(all) {
      assert all[0] == m;
      forall i | 0 <= i < |ms| ensures ValidUtf8(ms[i].key) && WellFormed(ms[i].value) { assert all[i + 1] == ms[i]; }
    }
  }

  lemma KeysStep(m: Member, ms: seq<Member>)
    ensures Distinct(Keys([m] + ms)) <==> Distinct(Keys(ms)) && Lookup(ms, m.key) == None
  {
    var all := Keys([m] + ms);
    assert all == [m.key] + Keys(ms);
    if Distinct(all) {
      forall i, j | 0 <= i < j < |ms| ensures Keys(ms)[i] != Keys(ms)[j] { assert all[i + 1] != all[j + 1]; }
      forall i | 0 <= i < |ms| ensures Keys(ms)[i] != m.key { assert all[0] != all[i + 1]; }
    }
  }

  lemma {:induction false} WithoutSound(ms: seq<Member>, omit: seq<bytes>)
    requires Sound(ms)
    ensures Sound(Without(ms, omit))
  {
    if ms != [] {
      assert ms == [ms[0]] + ms[1..];
      SoundStep(ms[0], ms[1..]);
      WithoutSound(ms[1..], omit);
      WithoutLookup(ms[1..], omit, ms[0].key);
      SoundStep(ms[0], Without(ms[1..], omit));
    }
  }

  lemma {:induction false} RemoveAllLookup(ms: seq<Member>, omit: seq<bytes>, q: bytes)
    requires AscendingKeys(ms)
    ensures AscendingKeys(RemoveAll(ms, omit))
    ensures Lookup(RemoveAll(ms, omit), q) == if q in omit then None else Lookup(ms, q)
    decreases |omit|
  {
    if omit != [] {
      RemoveMembers(ms, omit[0]);
      RemoveLookup(ms, omit[0], q);
      RemoveAllLookup(Remove(ms, omit[0]), omit[1..], q);
    }
  }

  /** Removing from the decoded object is decoding the members that are left. */
  lemma RemovedDecoded(ms: seq<Member>, omit: seq<bytes>)
    requires Sound(ms)
    ensures RemoveAll(InsertAll([], ms), omit) == InsertAll([], Without(ms, omit))
  {
    WithoutSound(ms, omit);
    InsertAllAscending([], ms);
    InsertAllAscending([], Without(ms, omit));
    RemoveAllLookup(InsertAll([], ms), omit, []);
    forall q ensures Lookup(RemoveAll(InsertAll([], ms), omit), q) == Lookup(InsertAll([], Without(ms, omit)), q) {
      RemoveAllLookup(InsertAll([], ms), omit, q);
      InsertAllLookup([], ms, q);
      InsertAllLookup([], Without(ms, omit), q);
      WithoutLookup(ms, omit, q);
    }
    SameLookups(RemoveAll(InsertAll([], ms), omit), InsertAll([], Without(ms, omit)));
  }

  lemma CompactExact(ms: seq<Member>, k: Json, b: bytes)
    requires Sound(ms)
    ensures Compact(ms, k, b) <==> k == Obj(InsertAll([], ms)) && b == Print(k)
  {
    NormalValue(Obj(ms));
    ValueNoDuplicates(Normal(Obj(ms)));
    NormalOfOrdered(Normal(Obj(ms)));
    NormalExact(Obj(ms), Normal(Obj(ms)));
    if Compact(ms, k, b) {
      ValueNoDuplicates(k);
      NormalExact(Obj(ms), k);
      NormalOfOrdered(k);
    }
  }

  lemma ListsSound(raw: bytes, ms: seq<Member>)
    requires Lists(raw, ms)
    ensures Sound(ms) && StrictRead(raw) == Some(Obj(ms))
  {
    ReadWellFormed(raw);
  }

  lemma CanonicalSteps(raw: bytes, omit: seq<bytes>, ms: seq<Member>)
    requires Lists(raw, ms)
    ensures Content(raw, omit) == Some(Obj(InsertAll([], Without(ms, omit))))
  {
    ListsSound(raw, ms);
    RemovedDecoded(ms, omit);
  }

  /**
   Canonical bytes are those of the documents that are objects and repeat no key: the compact spelling, with ascending
   keys at every depth, of the members that are not omitted.
   */
  lemma CanonicalExact(raw: bytes, omit: seq<bytes>, b: bytes)
    ensures CanonicalBytes(raw, omit) == Some(b) <==> exists ms, k :: CanonicalOf(raw, omit, ms, k, b)
  {
    if CanonicalBytes(raw, omit) == Some(b) {
      var ms := Read(raw).value.members;
      assert Lists(raw, ms);
      CanonicalMeets(raw, omit, ms, Content(raw, omit).value, b);
    }
    forall ms, k | CanonicalOf(raw, omit, ms, k, b) ensures CanonicalBytes(raw, omit) == Some(b) {
      CanonicalMeets(raw, omit, ms, k, b);
    }
  }

  lemma CanonicalMeets(raw: bytes, omit: seq<bytes>, ms: seq<Member>, k: Json, b: bytes)
    requires Lists(raw, ms)
    ensures CanonicalOf(raw, omit, ms, k, b) <==> Content(raw, omit) == Some(k) && CanonicalBytes(raw, omit) == Some(b)
  {
    ListsSound(raw, ms);
    WithoutSound(ms, omit);
    CompactExact(Without(ms, omit), k, b);
    CanonicalSteps(raw, omit, ms);
  }

  // ----- signed documents -----

  ghost predicate SignedWith(c: Platform, raw: bytes, key: bytes, out: bytes, ms: seq<Member>, content: Json, message: bytes,
                             tree: Json)
  {
    && CanonicalOf(raw, ["signature"], ms, content, message) && Sized(c.sign(key, message), 64)
    && Compact(Without(ms, ["signature"]) + [Member("signature", Str(Base64(c.sign(key, message))))], tree, out)
  }

  lemma {:induction false} InsertAllAppend(acc: seq<Member>, ms: seq<Member>, m: Member)
    ensures InsertAll(acc, ms + [m]) == Insert(InsertAll(acc, ms), m.key, Normal(m.value))
    decreases |ms|
  {
    if ms == [] {
      assert ms + [m] == [m] && [m][1..] == [];
      assert InsertAll(Insert(acc, m.key, Normal(m.value)), []) == Insert(acc, m.key, Normal(m.value));
    } else {
      assert (ms + [m])[1..] == ms[1..] + [m];
      InsertAllAppend(Insert(acc, ms[0].key, Normal(ms[0].value)), ms[1..], m);
    }
  }

  lemma {:induction false} AppendSound(ms: seq<Member>, m: Member)
    requires Sound(ms) && Lookup(ms, m.key) == None && NoDuplicates(m.value) && ValidUtf8(m.key) && WellFormed(m.value)
    ensures Sound(ms + [m])
  {
    if ms == [] {
      SoundStep(m, []);
      assert ms + [m] == [m] + [];
    } else {
      assert ms == [ms[0]] + ms[1..] && ms + [m] == [ms[0]] + (ms[1..] + [m]);
      SoundStep(ms[0], ms[1..]);
      AppendSound(ms[1..], m);
      AppendedLookup(ms[1..], m, ms[0].key);
      SoundStep(ms[0], ms[1..] + [m]);
    }
  }

  lemma {:induction false} AppendedLookup(ms: seq<Member>, m: Member, q: bytes)
    requires q != m.key
    ensures Lookup(ms + [m], q) == Lookup(ms, q)
  {
    if ms == [] {
      assert ms + [m] == [m] && [m][1..] == [];
    } else {
      assert (ms + [m])[1..] == ms[1..] + [m];
      AppendedLookup(ms[1..], m, q);
    }
  }

  /** A member of a key that is not there, listed last, is inserted into the decoded object. */
  lemma AppendedDecoded(ms: seq<Member>, m: Member)
    requires Sound(ms) && Lookup(ms, m.key) == None && m.value.Str? && ValidUtf8(m.key) && ValidUtf8(m.value.s)
    ensures Sound(ms + [m]) && InsertAll([], ms + [m]) == Insert(InsertAll([], ms), m.key, m.value)
  {
    AppendSound(ms, m);
    InsertAllAppend([], ms, m);
  }

  lemma TreeExact(c: Platform, raw: bytes, key: bytes, ms: seq<Member>, message: bytes, rest: seq<Member>, m: Member)
    requires Lists(raw, ms) && SigningBytes(raw) == Some(message) && rest == Without(ms, [SIGNATURE])
    requires m == Member(SIGNATURE, Str(Sign(c, key, message)))
    ensures Sound(rest + [m]) && SignedTree(c, raw, key) == Obj(InsertAll([], rest + [m]))
  {
    CanonicalSteps(raw, [SIGNATURE], ms);
    RestSound(raw, ms);
    MemberText(c, key, message);
    AppendedDecoded(rest, m);
  }

  lemma MemberText(c: Platform, key: bytes, message: bytes)
    ensures ValidUtf8(SIGNATURE) && ValidUtf8(Sign(c, key, message))
  {
    SignIsText(c, key, message);
    AsciiIsUtf8(SIGNATURE);
  }

  lemma RestSound(raw: bytes, ms: seq<Member>)
    requires Lists(raw, ms)
    ensures var rest := Without(ms, [SIGNATURE]);
            Sound(rest) && Lookup(rest, SIGNATURE) == None
  {
    ListsSound(raw, ms);
    WithoutSound(ms, [SIGNATURE]);
    WithoutLookup(ms, [SIGNATURE], SIGNATURE);
  }

  lemma SignedMeets(c: Platform, raw: bytes, key: bytes, out: bytes, ms: seq<Member>, content: Json, message: bytes, tree: Json)
    requires CanonicalOf(raw, ["signature"], ms, content, message)
    ensures SignedWith(c, raw, key, out, ms, content, message, tree) <==>
            tree == SignedTree(c, raw, key) && SignDocument(c, raw, key) == Some(out)
  {
    var rest := Without(ms, ["signature"]);
    var m := Member("signature", Str(Sign(c, key, message)));
    CanonicalMeets(raw, ["signature"], ms, content, message);
    TreeExact(c, raw, key, ms, message, rest, m);
    CompactExact(rest + [m], tree, out);
    SignDocumentPrints(c, raw, key);
    assert Sized(c.sign(key, message), 64);
  }

  /**
   A signed document is the compact spelling of the document's members but for its signature, with the signature over
   the canonical bytes of those members; and exactly the objects that repeat no key can be signed.
   */
  lemma SignDocumentExact(c: Platform, raw: bytes, key: bytes, out: bytes)
    ensures SignDocument(c, raw, key) == Some(out) <==>
            exists ms, content, message, tree :: SignedWith(c, raw, key, out, ms, content, message, tree)
  {
    if SignDocument(c, raw, key) == Some(out) {
      var message := SigningBytes(raw).value;
      CanonicalExact(raw, ["signature"], message);
      var ms, content :| CanonicalOf(raw, ["signature"], ms, content, message);
      SignedMeets(c, raw, key, out, ms, content, message, SignedTree(c, raw, key));
    }
    forall ms, content, message, tree | SignedWith(c, raw, key, out, ms, content, message, tree)
      ensures SignDocument(c, raw, key) == Some(out)
    {
      SignedMeets(c, raw, key, out, ms, content, message, tree);
    }
  }

  // ----- the embedded signature -----

  /** The last member of this key. */
  ghost predicate LastOf(ms: seq<Member>, i: nat, key: bytes) {
    i < |ms| && ms[i].key == key && forall k | i < k < |ms| :: ms[k].key != key
  }

  lemma {:induction false} NoneInserted(acc: seq<Member>, ms: seq<Member>, q: bytes)
    requires forall i | 0 <= i < |ms| :: ms[i].key != q
    ensures Lookup(InsertAll(acc, ms), q) == Lookup(acc, q)
    decreases |ms|
  {
    if ms != [] {
      InsertLookup(acc, ms[0].key, Normal(ms[0].value), q);
      NoneInserted(Insert(acc, ms[0].key, Normal(ms[0].value)), ms[1..], q);
    }
  }

  lemma {:induction false} LastInserted(acc: seq<Member>, ms: seq<Member>, i: nat, q: bytes)
    requires LastOf(ms, i, q)
    ensures Lookup(InsertAll(acc, ms), q) == Some(Normal(ms[i].value))
    decreases |ms|
  {
    var next := Insert(acc, ms[0].key, Normal(ms[0].value));
    if i == 0 {
      InsertLookup(acc, q, Normal(ms[0].value), q);
      NoneInserted(next, ms[1..], q);
    } else {
      assert ms[1..][i - 1] == ms[i];
      LastInserted(next, ms[1..], i - 1, q);
    }
  }

  lemma {:induction false} FindLast(ms: seq<Member>, q: bytes) returns (i: Option<nat>)
    ensures i.Some? ==> LastOf(ms, i.value, q)
    ensures i.None? ==> forall k | 0 <= k < |ms| :: ms[k].key != q
    decreases |ms|
  {
    if ms == [] {
      i := None;
    } else {
      var rest := FindLast(ms[1..], q);
      if rest.Some? {
        i := Some(rest.value + 1);
        assert ms[1..][rest.value] == ms[rest.value + 1];
        forall k | rest.value + 1 < k < |ms| ensures ms[k].key != q { assert ms[1..][k - 1] == ms[k]; }
      } else {
        forall k | 1 <= k < |ms| ensures ms[k].key != q { assert ms[1..][k - 1] == ms[k]; }
        i := if ms[0].key == q then Some(0) else None;
      }
    }
  }

  ghost predicate Carries(document: bytes, ms: seq<Member>, i: nat, text: bytes) {
    Read(document) == Some(Obj(ms)) && LastOf(ms, i, "signature") && ms[i].value == Str(text)
  }

  /** The embedded signature is the text that the document's last member of that key holds. */
  lemma DetachedSignatureExact(document: bytes, text: bytes)
    ensures DetachedSignature(document) == Some(text) <==> exists ms, i :: Carries(document, ms, i, text)
  {
    if Read(document).Some? && Read(document).value.Obj? {
      var ms := Read(document).value.members;
      var last := FindLast(ms, "signature");
      if last.Some? {
        LastInserted([], ms, last.value, "signature");
        assert ms[last.value].value == Str(text) ==> Carries(document, ms, last.value, text);
      } else {
        NoneInserted([], ms, "signature");
      }
    }
  }
}
