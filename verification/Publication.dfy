/** When a build succeeds, with which error it fails otherwise, and what exactly it publishes: key by key. */
module Publication {
  import opened Basics
  import opened Lossy
  import opened Text
  import opened Json
  import opened Objects
  import opened Canonical
  import opened Signing
  import opened Timestamps
  import opened Documents
  import opened Verify
  import opened Build
  import opened Published
  import opened Wire
  import opened Rules
  import opened Verdicts

  // ----- entries: what the config says -----

  /** Where the manifest reference of an entry comes from: the named file and the config's uri, or the config alone. */
  ghost predicate ReferenceFrom(c: Platform, disk: Disk, ms: seq<Member>, m: ManifestRef) {
    match Lookup(ms, "manifestFile")
    case Some(Str(path)) =>
      && disk(path).Some? && |disk(path).value| <= 262144
      && m.digest == "sha256:" + HexEncode(Hash(c, disk(path).value))
      && Lookup(ms, "manifest").Some? && PartialReference(Lookup(ms, "manifest").value, m.uri)
    case _ => Lookup(ms, "manifest").Some? && ReferenceWire(Lookup(ms, "manifest").value, m)
  }

  /** An object with a uri, and at most a digest, of any kind, besides. */
  ghost predicate PartialReference(j: Json, uri: bytes) {
    && j.Obj? && Lookup(j.members, "uri") == Some(Str(uri))
    && forall i | 0 <= i < |j.members| :: j.members[i].key == "uri" || j.members[i].key == "digest"
  }

  /** The keys of an entry in a config: those of a published entry, and `manifestFile`. */
  ghost predicate ConfigKeys(ms: seq<Member>) {
    forall i | 0 <= i < |ms| :: ms[i].key in {"componentId", "seatType", "manifest", "operator", "profiles", "evidence",
      "listedAt", "reviewedAt", "relationship", "placement", "status", "manifestFile"}
  }

  /** The config entry resolves to `e`. */
  ghost predicate Resolves(c: Platform, disk: Disk, j: Json, e: CatalogEntry) {
    && j.Obj? && ConfigKeys(j.members) && EntrySlots(j, e) && ReferenceFrom(c, disk, j.members, e.manifest)
    && SharedRules(c, e)
  }

  /** The config entry names a file that is not there. */
  ghost predicate MissingFile(disk: Disk, j: Json) {
    j.Obj? && match Lookup(j.members, "manifestFile") case Some(Str(path)) => disk(path) == None case _ => false
  }

  // ----- entries: the steps meet it -----

  /** The members that are decoded: without `manifestFile`, and with the reference, if it is rewritten. */
  ghost predicate Rewritten(ms: seq<Member>, fields: seq<Member>, v: Option<Json>) {
    && AscendingKeys(ms) && AscendingKeys(fields)
    && forall q :: Lookup(fields, q) ==
                   if q == "manifestFile" then None else if q == "manifest" && v.Some? then v else Lookup(ms, q)
  }

  lemma NamesLiteral()
    ensures MANIFEST_FILE == "manifestFile" && MANIFEST == "manifest" && DIGEST == "digest"
    ensures MANIFEST_FILE != MANIFEST
  {
    assert |MANIFEST_FILE| != |MANIFEST|;
  }

  lemma RemovedRewrites(ms: seq<Member>)
    requires AscendingKeys(ms)
    ensures Rewritten(ms, Remove(ms, MANIFEST_FILE), None)
  {
    NamesLiteral();
    RemoveMembers(ms, MANIFEST_FILE);
    forall q ensures Lookup(Remove(ms, MANIFEST_FILE), q) == if q == "manifestFile" then None else Lookup(ms, q) {
      RemoveLookup(ms, MANIFEST_FILE, q);
    }
  }

  lemma InsertedRewrites(ms: seq<Member>, v: Json)
    requires AscendingKeys(ms)
    ensures Rewritten(ms, Insert(Remove(ms, MANIFEST_FILE), MANIFEST, v), Some(v))
  {
    NamesLiteral();
    var rest := Remove(ms, MANIFEST_FILE);
    RemovedRewrites(ms);
    InsertAscending(rest, MANIFEST, v);
    forall q
      ensures Lookup(Insert(rest, MANIFEST, v), q) ==
              if q == "manifestFile" then None else if q == "manifest" then Some(v) else Lookup(ms, q)
    {
      InsertLookup(rest, MANIFEST, v, q);
    }
  }

  lemma KeyLookedUp(ms: seq<Member>, q: bytes)
    requires AscendingKeys(ms)
    ensures Lookup(ms, q).Some? <==> exists i :: 0 <= i < |ms| && ms[i].key == q
  {
    AscendingDistinct(ms);
    forall i | 0 <= i < |ms| && ms[i].key == q ensures Lookup(ms, q).Some? { MemberLookup(ms, i); }
    if Lookup(ms, q).Some? {
      var m := Member(q, Lookup(ms, q).value);
      assert m in ms;
    }
  }

  /** All the keys that are looked up are among these. */
  ghost predicate Within(ms: seq<Member>, keys: set<bytes>) {
    forall i | 0 <= i < |ms| :: ms[i].key in keys
  }

  lemma WithinExact(ms: seq<Member>, keys: set<bytes>)
    requires AscendingKeys(ms)
    ensures Within(ms, keys) <==> forall q | Lookup(ms, q).Some? :: q in keys
  {
    forall q ensures Lookup(ms, q).Some? <==> exists i :: 0 <= i < |ms| && ms[i].key == q { KeyLookedUp(ms, q); }
    if forall q | Lookup(ms, q).Some? :: q in keys {
      forall i | 0 <= i < |ms| ensures ms[i].key in keys { KeyLookedUp(ms, ms[i].key); }
    }
  }

  lemma RewrittenWithin(ms: seq<Member>, fields: seq<Member>, v: Option<Json>, keys: set<bytes>)
    requires Rewritten(ms, fields, v) && "manifest" in keys && "manifestFile" !in keys
    ensures Within(fields, keys) <==> Within(ms, keys + {"manifestFile"})
  {
    WithinExact(fields, keys);
    WithinExact(ms, keys + {"manifestFile"});
    if Within(fields, keys) {
      forall q | Lookup(ms, q).Some? ensures q in keys + {"manifestFile"} {
        if q != "manifestFile" && q != "manifest" { assert Lookup(fields, q) == Lookup(ms, q); }
      }
    }
  }

  lemma SlotKept(ms: seq<Member>, fields: seq<Member>, v: Option<Json>, q: bytes, at: nat)
    requires Rewritten(ms, fields, v) && q != [] && q[0] != 'm'
    ensures Held(Obj(fields), q, at) == Held(Obj(ms), q, at)
  {
    assert q != "manifest" && q != "manifestFile";
  }

  /** The fields of an entry but its manifest reference are the same. */
  ghost predicate SlotsAgree(j: Json, k: Json) {
    && Held(j, "componentId", 0) == Held(k, "componentId", 0) && Held(j, "seatType", 1) == Held(k, "seatType", 1)
    && Held(j, "operator", 3) == Held(k, "operator", 3) && Held(j, "profiles", 4) == Held(k, "profiles", 4)
    && Held(j, "evidence", 5) == Held(k, "evidence", 5) && Held(j, "listedAt", 6) == Held(k, "listedAt", 6)
    && Held(j, "reviewedAt", 7) == Held(k, "reviewedAt", 7) && Held(j, "relationship", 8) == Held(k, "relationship", 8)
    && Held(j, "placement", 9) == Held(k, "placement", 9) && Held(j, "status", 10) == Held(k, "status", 10)
  }

  lemma AgreeingSlots(j: Json, k: Json, e: CatalogEntry)
    requires SlotsAgree(j, k)
    ensures EntrySlots(j, e) <==> EntrySlots(k, e)
  {
  }

  lemma SlotsKept(ms: seq<Member>, fields: seq<Member>, v: Option<Json>)
    requires Rewritten(ms, fields, v)
    ensures SlotsAgree(Obj(fields), Obj(ms))
  {
    SlotKept(ms, fields, v, "componentId", 0);
    SlotKept(ms, fields, v, "seatType", 1);
    SlotKept(ms, fields, v, "operator", 3);
    SlotKept(ms, fields, v, "profiles", 4);
    SlotKept(ms, fields, v, "evidence", 5);
    SlotKept(ms, fields, v, "listedAt", 6);
    SlotKept(ms, fields, v, "reviewedAt", 7);
    SlotKept(ms, fields, v, "relationship", 8);
    SlotKept(ms, fields, v, "placement", 9);
    SlotKept(ms, fields, v, "status", 10);
  }

  lemma KeysKept(ms: seq<Member>, fields: seq<Member>, v: Option<Json>)
    requires Rewritten(ms, fields, v)
    ensures ConfigKeys(ms) <==>
            Shaped(Obj(fields), {"componentId", "seatType", "manifest", "operator", "profiles", "evidence", "listedAt",
                                 "reviewedAt", "relationship", "placement", "status"}, 11)
  {
    var keys := {"componentId", "seatType", "manifest", "operator", "profiles", "evidence", "listedAt", "reviewedAt",
                 "relationship", "placement", "status"};
    FileIsNoField();
    RewrittenWithin(ms, fields, v, keys);
    AscendingDistinct(fields);
  }

  lemma FileIsNoField()
    ensures "manifestFile" !in {"componentId", "seatType", "manifest", "operator", "profiles", "evidence", "listedAt",
                                "reviewedAt", "relationship", "placement", "status"}
  {
    assert "manifestFile"[0] == 'm' && "relationship"[0] == 'r' && |"manifest"| == 8;
  }

  lemma ManifestSlot(ms: seq<Member>, fields: seq<Member>, v: Option<Json>)
    requires Rewritten(ms, fields, v)
    ensures Held(Obj(fields), "manifest", 2) == if v.Some? then v else Lookup(ms, "manifest")
  {
    assert |"manifest"| != |"manifestFile"|;
  }

  lemma RewrittenEntry(ms: seq<Member>, fields: seq<Member>, v: Option<Json>, reference: Option<Json>, e: CatalogEntry)
    requires Rewritten(ms, fields, v) && reference == if v.Some? then v else Lookup(ms, "manifest")
    ensures DecodeEntryShape(Obj(fields)) == Some(e) <==>
            && ConfigKeys(ms) && EntrySlots(Obj(ms), e)
            && reference.Some? && ReferenceWire(reference.value, e.manifest)
  {
    EntryExact(Obj(fields), e);
    KeysKept(ms, fields, v);
    SlotsKept(ms, fields, v);
    AgreeingSlots(Obj(fields), Obj(ms), e);
    ManifestSlot(ms, fields, v);
  }

  lemma DigestAdded(ns: seq<Member>, fields: seq<Member>, d: bytes)
    requires AscendingKeys(ns) && AscendingKeys(fields)
    requires forall q :: Lookup(fields, q) == if q == "digest" then Some(Str(d)) else Lookup(ns, q)
    ensures Within(fields, {"uri", "digest"}) <==> Within(ns, {"uri", "digest"})
  {
    WithinExact(fields, {"uri", "digest"});
    WithinExact(ns, {"uri", "digest"});
    if Within(fields, {"uri", "digest"}) {
      forall q | Lookup(ns, q).Some? ensures q in {"uri", "digest"} { assert Lookup(fields, q).Some?; }
    }
  }

  lemma ReferenceMembers(fields: seq<Member>, m: ManifestRef)
    requires AscendingKeys(fields)
    ensures ReferenceWire(Obj(fields), m) <==>
            && Within(fields, {"uri", "digest"})
            && Lookup(fields, "uri") == Some(Str(m.uri)) && Lookup(fields, "digest") == Some(Str(m.digest))
  {
    AscendingDistinct(fields);
  }

  lemma PartialMembers(ns: seq<Member>, uri: bytes)
    ensures PartialReference(Obj(ns), uri) <==> Within(ns, {"uri", "digest"}) && Lookup(ns, "uri") == Some(Str(uri))
  {
  }

  lemma PinnedReferenceExact(ns: seq<Member>, d: bytes, m: ManifestRef)
    requires AscendingKeys(ns)
    ensures ReferenceWire(Obj(Insert(ns, "digest", Str(d))), m) <==> PartialReference(Obj(ns), m.uri) && m.digest == d
  {
    var fields := Insert(ns, "digest", Str(d));
    InsertAscending(ns, "digest", Str(d));
    forall q ensures Lookup(fields, q) == if q == "digest" then Some(Str(d)) else Lookup(ns, q) {
      InsertLookup(ns, "digest", Str(d), q);
    }
    assert |"uri"| != |"digest"|;
    DigestAdded(ns, fields, d);
    ReferenceMembers(fields, m);
    PartialMembers(ns, m.uri);
  }

  lemma UnpinnedEntry(c: Platform, disk: Disk, ms: seq<Member>, e: CatalogEntry)
    requires AscendingKeys(ms)
    requires Lookup(ms, "manifestFile").None? || !Lookup(ms, "manifestFile").value.Str?
    ensures PinManifest(c, disk, ms).Ok?
    ensures DecodeEntryShape(Obj(PinManifest(c, disk, ms).value)) == Some(e) <==>
            ConfigKeys(ms) && EntrySlots(Obj(ms), e) && ReferenceFrom(c, disk, ms, e.manifest)
  {
    NamesLiteral();
    RemovedRewrites(ms);
    RewrittenEntry(ms, Remove(ms, MANIFEST_FILE), None, Lookup(ms, "manifest"), e);
  }

  lemma PinnedEntry(c: Platform, ms: seq<Member>, ns: seq<Member>, d: bytes, e: CatalogEntry)
    requires AscendingKeys(ms) && AscendingKeys(ns)
    ensures DecodeEntryShape(Obj(Insert(Remove(ms, MANIFEST_FILE), MANIFEST, Obj(Insert(ns, DIGEST, Str(d)))))) == Some(e) <==>
            ConfigKeys(ms) && EntrySlots(Obj(ms), e) && PartialReference(Obj(ns), e.manifest.uri) && e.manifest.digest == d
  {
    NamesLiteral();
    var v := Obj(Insert(ns, DIGEST, Str(d)));
    InsertedRewrites(ms, v);
    RewrittenEntry(ms, Insert(Remove(ms, MANIFEST_FILE), MANIFEST, v), Some(v), Some(v), e);
    PinnedReferenceExact(ns, d, e.manifest);
  }

  lemma RestManifest(ms: seq<Member>)
    requires AscendingKeys(ms)
    ensures Lookup(Remove(ms, MANIFEST_FILE), MANIFEST) == Lookup(ms, "manifest")
  {
    NamesLiteral();
    RemoveLookup(ms, MANIFEST_FILE, MANIFEST);
  }

  lemma NestedAscending(ms: seq<Member>, ns: seq<Member>)
    requires Values(ms) && Lookup(ms, "manifest") == Some(Obj(ns))
    ensures AscendingKeys(ns)
  {
    LookupValue(ms, "manifest");
    ValuesObject(ns);
  }

  lemma DigestPins(c: Platform, ms: seq<Member>, d: bytes, e: CatalogEntry)
    requires Values(ms)
    ensures var reference, pinned := Lookup(ms, "manifest"), PinDigest(Remove(ms, MANIFEST_FILE), d);
            && (pinned.Err? ==> pinned.error == Malformed && reference.Some? && !reference.value.Obj?)
            && (pinned.Ok? ==>
                  (DecodeEntryShape(Obj(pinned.value)) == Some(e) <==>
                   && ConfigKeys(ms) && EntrySlots(Obj(ms), e) && e.manifest.digest == d
                   && reference.Some? && PartialReference(reference.value, e.manifest.uri)))
  {
    RestManifest(ms);
    match Lookup(ms, "manifest")
    case None => PinnedEntry(c, ms, [], d, e);
    case Some(Obj(ns)) =>
      NestedAscending(ms, ns);
      PinnedEntry(c, ms, ns, d, e);
    case _ =>
  }

  lemma FilePins(c: Platform, disk: Disk, ms: seq<Member>, path: bytes, e: CatalogEntry)
    requires Values(ms) && Lookup(ms, "manifestFile") == Some(Str(path))
    ensures var pinned := PinManifest(c, disk, ms);
            && (pinned == Err(Io) <==> disk(path) == None)
            && (pinned.Err? ==> pinned.error in {Io, Malformed} && !ReferenceFrom(c, disk, ms, e.manifest))
            && (pinned.Ok? ==>
                  (DecodeEntryShape(Obj(pinned.value)) == Some(e) <==>
                   ConfigKeys(ms) && EntrySlots(Obj(ms), e) && ReferenceFrom(c, disk, ms, e.manifest)))
  {
    PinSteps(c, disk, ms, path);
    ReferenceSteps(c, disk, ms, path, e.manifest);
    if disk(path).Some? { DigestPins(c, ms, Digest(c, disk(path).value), e); }
  }

  lemma PinSteps(c: Platform, disk: Disk, ms: seq<Member>, path: bytes)
    requires Lookup(ms, "manifestFile") == Some(Str(path))
    ensures PinManifest(c, disk, ms) ==
            if disk(path) == None then Err(Io)
            else if |disk(path).value| > 262144 then Err(Malformed)
            else PinDigest(Remove(ms, MANIFEST_FILE), Digest(c, disk(path).value))
  {
    NamesLiteral();
  }

  lemma ReferenceSteps(c: Platform, disk: Disk, ms: seq<Member>, path: bytes, m: ManifestRef)
    requires Lookup(ms, "manifestFile") == Some(Str(path))
    ensures ReferenceFrom(c, disk, ms, m) <==>
            && disk(path).Some? && |disk(path).value| <= 262144 && m.digest == Digest(c, disk(path).value)
            && Lookup(ms, "manifest").Some? && PartialReference(Lookup(ms, "manifest").value, m.uri)
  {
    if disk(path).Some? { DigestLiteral(c, disk(path).value); }
  }

  lemma PublishableExact(c: Platform, e: CatalogEntry)
    ensures Publishable(c, e) <==> SharedRules(c, e)
  {
    EntryRulesExact(c, e);
  }

  lemma PinsExact(c: Platform, disk: Disk, ms: seq<Member>, e: CatalogEntry)
    requires Values(ms)
    ensures var pinned := PinManifest(c, disk, ms);
            && (pinned == Err(Io) <==> MissingFile(disk, Obj(ms)))
            && (pinned.Err? ==> pinned.error in {Io, Malformed} && !ReferenceFrom(c, disk, ms, e.manifest))
            && (pinned.Ok? ==>
                  (DecodeEntryShape(Obj(pinned.value)) == Some(e) <==>
                   ConfigKeys(ms) && EntrySlots(Obj(ms), e) && ReferenceFrom(c, disk, ms, e.manifest)))
  {
    match Lookup(ms, "manifestFile")
    case Some(Str(path)) => FilePins(c, disk, ms, path, e);
    case _ => UnpinnedEntry(c, disk, ms, e);
  }

  /** A config entry resolves to `e` exactly when the rules say so. */
  lemma ResolvesExact(c: Platform, disk: Disk, j: Json, e: CatalogEntry)
    requires Value(j)
    ensures ResolveTyped(c, disk, j) == Ok(e) <==> Resolves(c, disk, j, e)
  {
    if j.Obj? {
      ValuesObject(j.members);
      PinsExact(c, disk, j.members, e);
      PublishableExact(c, e);
    }
  }

  /** And the error otherwise: of reading when the file that it names is not there, of the entry in any other case. */
  lemma UnresolvedExact(c: Platform, disk: Disk, j: Json)
    requires Value(j) && ResolveEntry(c, disk, j).Err?
    ensures ResolveEntry(c, disk, j).error == if MissingFile(disk, j) then Io else Malformed
  {
    if j.Obj? {
      ValuesObject(j.members);
      PinError(c, disk, j.members);
    }
  }

  lemma PinError(c: Platform, disk: Disk, ms: seq<Member>)
    requires Values(ms)
    ensures var pinned := PinManifest(c, disk, ms);
            && (pinned == Err(Io) <==> MissingFile(disk, Obj(ms))) && (pinned.Err? ==> pinned.error in {Io, Malformed})
  {
    var e := CatalogEntry([], [], ManifestRef([], []), [], [], [], [], None, [], [], None);
    PinsExact(c, disk, ms, e);
  }

  // ----- what is written -----

  /** An optional text is left out, not written as null. */
  ghost predicate WrittenText(v: Option<Json>, text: Option<bytes>) {
    v == match text case Some(s) => Some(Str(s)) case None => None
  }

  ghost predicate ReferenceTree(j: Json, m: ManifestRef) {
    j.Obj? && ReferenceWire(j, m)
  }

  ghost predicate StatusTree(v: Option<Json>, status: Option<EntryStatus>) {
    match status
    case None => v == None
    case Some(s) =>
      && v.Some? && v.value.Obj? && Shaped(v.value, {"state", "uri"}, 2)
      && Lookup(v.value.members, "state") == Some(Str(s.state)) && WrittenText(Lookup(v.value.members, "uri"), s.uri)
  }

  /** The object written for an entry, key by key. */
  ghost predicate EntryTree(j: Json, e: CatalogEntry) {
    && j.Obj? && EntryWire(j, e)
    && Lookup(j.members, "profiles").Some? && Lookup(j.members, "evidence") == Some(Arr(e.evidence))
    && WrittenText(Lookup(j.members, "reviewedAt"), e.reviewedAt)
    && Lookup(j.members, "manifest").Some? && ReferenceTree(Lookup(j.members, "manifest").value, e.manifest)
    && StatusTree(Lookup(j.members, "status"), e.status)
  }

  lemma ReferenceWritten(m: ManifestRef)
    requires ValidUtf8(m.uri) && ValidUtf8(m.digest)
    ensures ReferenceTree(EncodeManifestRef(m), m)
  {
    ManifestRefRoundTrip(m);
    ReferenceExact(Some(EncodeManifestRef(m)), m);
  }

  lemma StatusWritten(status: Option<EntryStatus>)
    requires status.Some? ==> ValidUtf8(status.value.state) && Text8(status.value.uri)
    ensures StatusTree(EncodeOptionalStatus(status), status)
  {
    if status.Some? {
      PartFieldNames();
      var s := status.value;
      var j := RecordRoundTrip(STATUS_FIELDS, [Some(Str(s.state)), Optional(s.uri)]);
      FieldsExact(STATUS_FIELDS, {"state", "uri"}, j);
      NamedSlot(j, STATUS_FIELDS, [Some(Str(s.state)), Optional(s.uri)], 0, "state");
      NamedSlot(j, STATUS_FIELDS, [Some(Str(s.state)), Optional(s.uri)], 1, "uri");
    }
  }

  lemma EntryFieldsWritten(e: CatalogEntry) returns (f: seq<Option<Json>>)
    requires EntryText(e)
    ensures f == EntryValues(e, EncodeManifestRef(e.manifest), EncodeOptionalStatus(e.status))
    ensures SlotsAre(EncodeEntry(e), ENTRY_FIELDS, f) && EncodeEntry(e).Obj?
  {
    f := EntryValues(e, EncodeManifestRef(e.manifest), EncodeOptionalStatus(e.status));
    EntryFieldNames();
    ManifestRefRoundTrip(e.manifest);
    if e.status.Some? { StatusRoundTrip(e.status.value); }
    EntryValuesGood(e, EncodeManifestRef(e.manifest), EncodeOptionalStatus(e.status));
    var j := RecordRoundTrip(ENTRY_FIELDS, f);
    FieldsHeld(ENTRY_FIELDS, j);
  }

  lemma EntryWritten(e: CatalogEntry)
    requires EntryText(e)
    ensures EntryTree(EncodeEntry(e), e)
  {
    var j := EncodeEntry(e);
    EntryRoundTrip(e);
    EntryExact(j, e);
    var f := EntryFieldsWritten(e);
    EntryFirst(j, f);
    EntryLast(j, f);
    ReferenceWritten(e.manifest);
    StatusWritten(e.status);
  }

  // ----- builds: the rules -----

  ghost predicate ConfigRules(config: SnapshotConfig) {
    && Tokenlike(config.catalogId) && ComponentForm(config.providerId) && DigestForm(config.policyDigest)
    && 1 <= config.expiryDays <= 90
  }

  /**
   The sequence and the link of the snapshot that continues `previous`: 1 and none to start with, and otherwise one
   more than that of a snapshot document that repeats no key and is of the same catalog, with the digest of its bytes.
   */
  ghost predicate ContinuesFrom(c: Platform, config: SnapshotConfig, previous: Option<bytes>, n: int, link: Option<bytes>) {
    match previous
    case None => n == 1 && link == None
    case Some(p) =>
      && link == Some("sha256:" + HexEncode(Hash(c, p)))
      && exists s :: ReadsAs(p, s) && s.catalogId == config.catalogId && n == OneMore(s.sequence)
  }

  /** A snapshot document that repeats no key. */
  ghost predicate ReadsAs(p: bytes, s: CatalogSnapshot) {
    Read(p).Some? && NoDuplicates(Read(p).value) && SnapshotWire(Read(p).value, s)
  }

  /** On 64 bits. */
  function OneMore(n: u64): int {
    if n == 0xFFFF_FFFF_FFFF_FFFF then 0 else n as int + 1
  }

  ghost predicate CanContinue(c: Platform, config: SnapshotConfig, previous: Option<bytes>) {
    exists n, link :: ContinuesFrom(c, config, previous, n, link)
  }

  ghost predicate SomeResolves(c: Platform, disk: Disk, j: Json) {
    exists e :: Resolves(c, disk, j, e)
  }

  ghost function EntryFault(c: Platform, disk: Disk, j: Json): Option<Error> {
    if SomeResolves(c, disk, j) then None else Some(if MissingFile(disk, j) then Io else Malformed)
  }

  function FirstFault(faults: seq<Option<Error>>, n: nat): Option<Error>
    requires n <= |faults|
  {
    if n == 0 then None
    else if FirstFault(faults, n - 1).Some? then FirstFault(faults, n - 1)
    else faults[n - 1]
  }

  ghost function EntryFaults(c: Platform, disk: Disk, values: seq<Json>): (r: seq<Option<Error>>)
    ensures |r| == |values|
  {
    seq(|values|, i requires 0 <= i < |values| => EntryFault(c, disk, values[i]))
  }

  /** The first of the entries that does not resolve decides the error. */
  ghost function EntriesFault(c: Platform, disk: Disk, values: seq<Json>): Option<Error> {
    FirstFault(EntryFaults(c, disk, values), |values|)
  }

  /** Both ends of the window are in the years 0000 to 9999, which have 3652425 days. */
  ghost predicate Datable(at: Instant, days: nat) {
    0 <= at && at + days * 86_400_000_000_000 < 3652425 * 86_400_000_000_000
  }

  ghost function BuildFault(c: Platform, config: SnapshotConfig, previous: Option<bytes>, at: Instant, disk: Disk)
    : Option<Error>
  {
    if !ConfigRules(config) || !CanContinue(c, config, previous) then Some(Malformed)
    else if EntriesFault(c, disk, config.entries).Some? then
      EntriesFault(c, disk, config.entries)
    else if !Datable(at, config.expiryDays) then Some(Panic)
    else None
  }

  // ----- builds: the steps meet them -----

  lemma ConfigExact(config: SnapshotConfig)
    ensures ValidConfig(config) <==> ConfigRules(config)
  {
    CatalogIdExact(config.catalogId);
    ComponentIdExact(config.providerId);
    DigestFormExact(config.policyDigest);
  }

  lemma ReadsExact(p: bytes, s: CatalogSnapshot)
    ensures ReadsAs(p, s) <==> StrictRead(p).Some? && DecodeSnapshotShape(StrictRead(p).value) == Some(s)
  {
    if Read(p).Some? { SnapshotExact(Read(p).value, s); }
  }

  ghost predicate ChainIs(c: Platform, config: SnapshotConfig, previous: Option<bytes>,
                          r: Result<(u64, Option<bytes>), Error>)
  {
    match r
    case Ok(p) => forall n, link :: ContinuesFrom(c, config, previous, n, link) <==> n == p.0 as int && link == p.1
    case Err(e) => e == Malformed && !CanContinue(c, config, previous)
  }

  lemma ChainSteps(c: Platform, config: SnapshotConfig, p: bytes)
    ensures Chain(c, config, Some(p)) ==
            if StrictRead(p).None? || DecodeSnapshotShape(StrictRead(p).value).None? then Err(Malformed)
            else
              var s := DecodeSnapshotShape(StrictRead(p).value).value;
              if s.catalogId != config.catalogId then Err(Malformed)
              else Ok((NextSequence(s.sequence), Some("sha256:" + HexEncode(Hash(c, p)))))
  {
    DigestLiteral(c, p);
  }

  lemma ContinuesOne(c: Platform, config: SnapshotConfig, p: bytes, n: int, link: Option<bytes>)
    ensures ContinuesFrom(c, config, Some(p), n, link) <==>
            && StrictRead(p).Some? && DecodeSnapshotShape(StrictRead(p).value).Some?
            && var s := DecodeSnapshotShape(StrictRead(p).value).value;
               s.catalogId == config.catalogId && n == OneMore(s.sequence) && link == Some("sha256:" + HexEncode(Hash(c, p)))
  {
    if StrictRead(p).Some? && DecodeSnapshotShape(StrictRead(p).value).Some? {
      ReadsExact(p, DecodeSnapshotShape(StrictRead(p).value).value);
    }
    if ContinuesFrom(c, config, Some(p), n, link) {
      var s :| ReadsAs(p, s) && s.catalogId == config.catalogId && n == OneMore(s.sequence);
      ReadsExact(p, s);
    }
  }

  lemma ChainExact(c: Platform, config: SnapshotConfig, previous: Option<bytes>)
    ensures ChainIs(c, config, previous, Chain(c, config, previous))
  {
    if previous.Some? {
      var p := previous.value;
      ChainSteps(c, config, p);
      var r := Chain(c, config, previous);
      forall n, link
        ensures ContinuesFrom(c, config, previous, n, link) <==> r.Ok? && n == r.value.0 as int && link == r.value.1
      {
        ContinuesOne(c, config, p, n, link);
      }
    }
  }

  /** The item written for this config entry. */
  ghost predicate WrittenFor(c: Platform, disk: Disk, value: Json, item: Json) {
    exists e :: Resolves(c, disk, value, e) && EntryTree(item, e)
  }

  function FaultIn<T>(r: Result<T, Error>): Option<Error> {
    match r case Ok(_) => None case Err(e) => Some(e)
  }

  lemma ResolvedOutcome(c: Platform, disk: Disk, j: Json, e: CatalogEntry)
    requires Value(j) && ResolveTyped(c, disk, j) == Ok(e)
    ensures WrittenFor(c, disk, j, EncodeEntry(e))
  {
    ResolvesExact(c, disk, j, e);
    ResolvedText(c, disk, j);
    EntryWritten(e);
  }

  lemma EntryOutcome(c: Platform, disk: Disk, j: Json)
    requires Value(j)
    ensures EntryFault(c, disk, j) == FaultIn(ResolveEntry(c, disk, j))
    ensures ResolveEntry(c, disk, j).Ok? ==> WrittenFor(c, disk, j, ResolveEntry(c, disk, j).value)
  {
    if ResolveTyped(c, disk, j).Ok? {
      ResolvedOutcome(c, disk, j, ResolveTyped(c, disk, j).value);
    } else {
      forall e ensures !Resolves(c, disk, j, e) { ResolvesExact(c, disk, j, e); }
      UnresolvedExact(c, disk, j);
    }
  }

  lemma {:induction false} FaultExact<T>(faults: seq<Option<Error>>, rs: seq<Result<T, Error>>, n: nat)
    requires n <= |faults| == |rs| && forall i | 0 <= i < n :: faults[i] == FaultIn(rs[i])
    ensures FirstFault(faults, n) == FaultIn(Collect(rs, n))
  {
    if n > 0 { FaultExact(faults, rs, n - 1); }
  }

  lemma EntryAt(c: Platform, disk: Disk, values: seq<Json>, i: nat)
    requires Value(Arr(values)) && i < |values|
    ensures var r := ResolvedEntries(c, disk, values)[i];
            && EntryFault(c, disk, values[i]) == FaultIn(r)
            && (r.Ok? ==> WrittenFor(c, disk, values[i], r.value))
  {
    ItemValue(values, i);
    EntryOutcome(c, disk, values[i]);
  }

  lemma FaultAt(c: Platform, disk: Disk, values: seq<Json>, i: nat)
    requires Value(Arr(values)) && i < |values|
    ensures EntryFaults(c, disk, values)[i] == FaultIn(ResolvedEntries(c, disk, values)[i])
  {
    EntryAt(c, disk, values, i);
  }

  lemma EntriesError(c: Platform, disk: Disk, values: seq<Json>)
    requires Value(Arr(values))
    ensures EntriesFault(c, disk, values) == FaultIn(Collect(ResolvedEntries(c, disk, values), |values|))
  {
    var faults, rs := EntryFaults(c, disk, values), ResolvedEntries(c, disk, values);
    forall i | 0 <= i < |values| ensures faults[i] == FaultIn(rs[i]) { FaultAt(c, disk, values, i); }
    FaultExact(faults, rs, |values|);
  }

  lemma EntriesExact(c: Platform, disk: Disk, values: seq<Json>, items: seq<Json>)
    requires Value(Arr(values)) && Collect(ResolvedEntries(c, disk, values), |values|) == Ok(items)
    ensures EntriesField(c, disk, values, Some(Arr(items)))
  {
    var rs := ResolvedEntries(c, disk, values);
    CollectExact(rs, |values|);
    forall i | 0 <= i < |values| ensures WrittenFor(c, disk, values[i], items[i]) {
      assert rs[i] == Ok(items[i]);
      EntryAt(c, disk, values, i);
    }
  }

  // ----- builds: what is published -----

  /** The field holds a timestamp that reads as this instant. */
  ghost predicate TimeField(v: Option<Json>, t: Instant) {
    v.Some? && v.value.Str? && ParseTimestamp(v.value.s) == Some(t)
  }

  /** The published object, key by key: it has these fields and no other. */
  ghost predicate PublishedTree(c: Platform, config: SnapshotConfig, at: Instant, disk: Disk, key: bytes, raw: bytes,
                                ms: seq<Member>, n: int, link: Option<bytes>)
  {
    && Within(ms, {"version", "implementationProfileId", "catalogId", "providerId", "sequence", "previousDigest",
                   "policyDigest", "generatedAt", "expiresAt", "entries", "signature"})
    && Lookup(ms, "version") == Some(Int(1))
    && Lookup(ms, "implementationProfileId") == Some(Str("onym:discovery-implementation:static-ed25519-v1"))
    && Lookup(ms, "catalogId") == Some(Str(config.catalogId)) && Lookup(ms, "providerId") == Some(Str(config.providerId))
    && Lookup(ms, "policyDigest") == Some(Str(config.policyDigest))
    && Lookup(ms, "sequence") == Some(Int(n)) && WrittenText(Lookup(ms, "previousDigest"), link)
    && TimeField(Lookup(ms, "generatedAt"), at - at % 1_000_000_000)
    && TimeField(Lookup(ms, "expiresAt"), at - at % 1_000_000_000 + config.expiryDays * 86_400_000_000_000)
    && EntriesField(c, disk, config.entries, Lookup(ms, "entries"))
    && SignatureField(c, key, raw, Lookup(ms, "signature"))
  }

  ghost predicate EntriesField(c: Platform, disk: Disk, values: seq<Json>, v: Option<Json>) {
    && v.Some? && v.value.Arr? && |v.value.items| == |values|
    && forall i | 0 <= i < |values| :: WrittenFor(c, disk, values[i], v.value.items[i])
  }

  /** The signature over the signing bytes of the document itself, padded. */
  ghost predicate SignatureField(c: Platform, key: bytes, raw: bytes, v: Option<Json>) {
    && SigningBytes(raw).Some? && Sized(c.sign(key, SigningBytes(raw).value), 64)
    && v == Some(Str(Base64(c.sign(key, SigningBytes(raw).value))))
  }

  ghost predicate PublishedWith(c: Platform, config: SnapshotConfig, previous: Option<bytes>, at: Instant, disk: Disk,
                                key: bytes, b: BuiltSnapshot, n: int, link: Option<bytes>)
  {
    && b.sequence as int == n && b.digest == "sha256:" + HexEncode(Hash(c, b.raw))
    && ContinuesFrom(c, config, previous, n, link)
    && Read(b.raw).Some? && Read(b.raw).value.Obj? && NoDuplicates(Read(b.raw).value)
    && PublishedTree(c, config, at, disk, key, b.raw, Read(b.raw).value.members, n, link)
  }

  ghost predicate PublishedAs(c: Platform, config: SnapshotConfig, previous: Option<bytes>, at: Instant, disk: Disk,
                              key: bytes, b: BuiltSnapshot)
  {
    exists n, link :: PublishedWith(c, config, previous, at, disk, key, b, n, link)
  }

  lemma SnapshotHeld(j: Json, s: CatalogSnapshot)
    requires j.Obj? && Fields(SNAPSHOT_FIELDS, j) == Some(SnapshotValues(s))
    ensures var ms := j.members;
            && Lookup(ms, "version") == Some(Int(s.version)) && Lookup(ms, "implementationProfileId") == Some(Str(s.profile))
            && Lookup(ms, "catalogId") == Some(Str(s.catalogId)) && Lookup(ms, "providerId") == Some(Str(s.providerId))
            && Lookup(ms, "sequence") == Some(Int(s.sequence as int))
            && WrittenText(Lookup(ms, "previousDigest"), s.previousDigest)
            && Lookup(ms, "policyDigest") == Some(Str(s.policyDigest))
            && Lookup(ms, "generatedAt") == Some(Str(s.generatedAt)) && Lookup(ms, "expiresAt") == Some(Str(s.expiresAt))
            && Lookup(ms, "entries") == Some(Arr(s.entries)) && WrittenText(Lookup(ms, "signature"), s.signature)
  {
    FieldsHeld(SNAPSHOT_FIELDS, j);
    SnapshotFirst(j, SnapshotValues(s));
    SnapshotLast(j, SnapshotValues(s));
  }

  lemma SnapshotKeys(j: Json)
    requires j.Obj? && Fields(SNAPSHOT_FIELDS, j).Some?
    ensures Within(j.members, {"version", "implementationProfileId", "catalogId", "providerId", "sequence",
                               "previousDigest", "policyDigest", "generatedAt", "expiresAt", "entries", "signature"})
  {
    FieldsExact(SNAPSHOT_FIELDS, {"version", "implementationProfileId", "catalogId", "providerId", "sequence",
                                  "previousDigest", "policyDigest", "generatedAt", "expiresAt", "entries", "signature"}, j);
  }

  lemma WindowTimes(s: CatalogSnapshot, days: nat, at: Instant, until: Instant)
    requires 1 <= days <= 90 && until == at + days * 86_400_000_000_000
    requires TimeText(at, s.generatedAt) && TimeText(until, s.expiresAt)
    ensures TimeField(Some(Str(s.generatedAt)), at - at % 1_000_000_000)
    ensures TimeField(Some(Str(s.expiresAt)), at - at % 1_000_000_000 + days * 86_400_000_000_000)
  {
    SameSecond(at, days, until, at - at % SECOND, at - at % SECOND + days * DAY);
  }

  lemma DraftedTimes(c: Platform, config: SnapshotConfig, previous: Option<bytes>, at: Instant, disk: Disk,
                     s: CatalogSnapshot)
    requires Drafted(c, config, previous, at, disk, s)
    ensures TimeField(Some(Str(s.generatedAt)), at - at % 1_000_000_000)
    ensures TimeField(Some(Str(s.expiresAt)), at - at % 1_000_000_000 + config.expiryDays * 86_400_000_000_000)
  {
    WindowTimes(s, config.expiryDays, at, ExpiresAt(config, at));
  }

  lemma DraftedRest(c: Platform, config: SnapshotConfig, previous: Option<bytes>, at: Instant, disk: Disk,
                    s: CatalogSnapshot)
    requires GoodConfig(config) && Drafted(c, config, previous, at, disk, s)
    ensures ContinuesFrom(c, config, previous, s.sequence as int, s.previousDigest)
    ensures EntriesField(c, disk, config.entries, Some(Arr(s.entries)))
    ensures s.version == 1 && s.profile == "onym:discovery-implementation:static-ed25519-v1"
    ensures s.catalogId == config.catalogId && s.providerId == config.providerId && s.policyDigest == config.policyDigest
  {
    ProfileLiteral();
    ChainExact(c, config, previous);
    EntriesExact(c, disk, config.entries, s.entries);
  }

  lemma SignatureHeld(c: Platform, key: bytes, raw: bytes)
    requires SigningBytes(raw).Some?
    ensures SignatureField(c, key, raw, Some(Str(Sign(c, key, SigningBytes(raw).value))))
  {
    assert Sized(c.sign(key, SigningBytes(raw).value), 64);
  }

  lemma TreeOf(c: Platform, config: SnapshotConfig, previous: Option<bytes>, at: Instant, disk: Disk, key: bytes,
               raw: bytes, j: Json, s: CatalogSnapshot)
    requires GoodConfig(config) && Drafted(c, config, previous, at, disk, s)
    requires j.Obj? && Fields(SNAPSHOT_FIELDS, j) == Some(SnapshotValues(s))
    requires SigningBytes(raw).Some? && s.signature == Some(Sign(c, key, SigningBytes(raw).value))
    ensures PublishedTree(c, config, at, disk, key, raw, j.members, s.sequence as int, s.previousDigest)
  {
    SnapshotHeld(j, s);
    SnapshotKeys(j);
    DraftedTimes(c, config, previous, at, disk, s);
    DraftedRest(c, config, previous, at, disk, s);
    SignatureHeld(c, key, raw);
  }

  lemma BuiltTree(c: Platform, config: SnapshotConfig, previous: Option<bytes>, at: Instant, key: bytes, disk: Disk,
                  b: BuiltSnapshot)
    requires GoodConfig(config) && SnapshotFor(c, config, previous, at, key, disk) == Ok(b)
    ensures PublishedAs(c, config, previous, at, disk, key, b)
  {
    var s := BuiltFields(c, config, previous, at, key, disk);
    var t := BuiltReadsBack(c, config, previous, at, key, disk);
    TreeOf(c, config, previous, at, disk, key, b.raw, Read(b.raw).value, s);
    DraftedRest(c, config, previous, at, disk, s);
    DigestLiteral(c, b.raw);
    assert PublishedWith(c, config, previous, at, disk, key, b, s.sequence as int, s.previousDigest);
  }

  ghost predicate BuildIs(c: Platform, config: SnapshotConfig, previous: Option<bytes>, at: Instant, disk: Disk, key: bytes,
                          r: Result<BuiltSnapshot, Error>)
  {
    match r
    case Ok(b) => BuildFault(c, config, previous, at, disk) == None && PublishedAs(c, config, previous, at, disk, key, b)
    case Err(e) => BuildFault(c, config, previous, at, disk) == Some(e)
  }

  lemma DatableExact(config: SnapshotConfig, at: Instant)
    ensures Writable(at, ExpiresAt(config, at)) <==> Datable(at, config.expiryDays)
  {
  }

  lemma BuildSteps(c: Platform, config: SnapshotConfig, previous: Option<bytes>, at: Instant, key: bytes, disk: Disk,
                   chain: Result<(u64, Option<bytes>), Error>, entries: Result<seq<Json>, Error>)
    requires chain == Chain(c, config, previous)
    requires entries == Collect(ResolvedEntries(c, disk, config.entries), |config.entries|)
    ensures SnapshotFor(c, config, previous, at, key, disk) ==
            if !ValidConfig(config) then Err(Malformed)
            else if chain.Err? then Err(chain.error)
            else if entries.Err? then Err(entries.error)
            else Finish(c, config, chain.value, at, ExpiresAt(config, at), entries.value, key)
  {
  }

  lemma FinishFault(c: Platform, config: SnapshotConfig, previous: Option<bytes>, chain: (u64, Option<bytes>), at: Instant,
                    disk: Disk, entries: seq<Json>, key: bytes)
    requires ValidConfig(config) && GoodConfig(config) && Chain(c, config, previous) == Ok(chain)
    requires Collect(ResolvedEntries(c, disk, config.entries), |config.entries|) == Ok(entries)
    ensures var r := Finish(c, config, chain, at, ExpiresAt(config, at), entries, key);
            (r.Ok? <==> Datable(at, config.expiryDays)) && (r.Err? ==> r.error == Panic)
  {
    var u := ExpiresAt(config, at);
    FinishSucceeds(c, config, previous, chain, at, u, disk, entries, key);
    DatableExact(config, at);
    StampExact(config, chain, at, u, entries);
    if Stamp(config, chain, at, u, entries).Ok? {
      var d := StampSteps(config, chain, at, u, entries);
      DraftPublishes(c, config, previous, at, disk, d, key);
    }
  }

  lemma ChainContinues(c: Platform, config: SnapshotConfig, previous: Option<bytes>)
    ensures Chain(c, config, previous).Ok? <==> CanContinue(c, config, previous)
    ensures Chain(c, config, previous).Err? ==> Chain(c, config, previous).error == Malformed
  {
    ChainExact(c, config, previous);
    var r := Chain(c, config, previous);
    if r.Ok? { assert ContinuesFrom(c, config, previous, r.value.0 as int, r.value.1); }
  }

  lemma BuildErrors(c: Platform, config: SnapshotConfig, previous: Option<bytes>, at: Instant, key: bytes, disk: Disk)
    requires GoodConfig(config)
    ensures var r := SnapshotFor(c, config, previous, at, key, disk);
            BuildFault(c, config, previous, at, disk) == FaultIn(r)
  {
    var chain := Chain(c, config, previous);
    var entries := Collect(ResolvedEntries(c, disk, config.entries), |config.entries|);
    ConfigExact(config);
    ChainContinues(c, config, previous);
    EntriesError(c, disk, config.entries);
    BuildSteps(c, config, previous, at, key, disk, chain, entries);
    if ValidConfig(config) && chain.Ok? && entries.Ok? {
      FinishFault(c, config, previous, chain.value, at, disk, entries.value, key);
    }
  }

  /**
   What a build comes to, in full: the first rule that fails decides the error, and when none does the published
   object has exactly the keys and values that the config, the previous bytes, the named files and the clock say,
   with a signature over its own signing bytes.
   */
  lemma BuildExact(c: Platform, config: SnapshotConfig, previous: Option<bytes>, at: Instant, key: bytes, disk: Disk)
    requires GoodConfig(config)
    ensures BuildIs(c, config, previous, at, disk, key, SnapshotFor(c, config, previous, at, key, disk))
  {
    BuildErrors(c, config, previous, at, key, disk);
    var r := SnapshotFor(c, config, previous, at, key, disk);
    if r.Ok? { BuiltTree(c, config, previous, at, key, disk, r.value); }
  }
}
