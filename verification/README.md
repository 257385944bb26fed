# Onym discovery: a verified model of the signed catalog chain

This project models the static-snapshot/Ed25519 discovery profile and proves properties of it in Dafny. An
operator signs a provider manifest and, for each catalog, a chain of snapshots. Every snapshot carries a
sequence number and the digest of the exact bytes of the one before it. A client verifies what it fetches
against the manifest and against what it last accepted, and retains the result.

`dafny verify dfyconfig.toml` checks everything.

## How the model is organised

| file | what it models |
|---|---|
| `Basics.dfy`, `Text.dfy` | byte strings and byte order, decimal, hex, base64 (RFC 4648 section 4), UTF-8 |
| `Json.dfy`, `Grammar.dfy` | the JSON reader and the compact printer, and the grammar of RFC 8259 as concrete syntax trees |
| `Objects.dfy`, `Canonical.dfy` | objects as ordered maps, the duplicate-key scan, canonical bytes and signing bytes |
| `Signing.dfy` | operator keys, signatures, `sign_document`, `detached_signature` |
| `Timestamps.dfy`, `Documents.dfy` | RFC 3339 timestamps, the document records with their strict decoding and encoding |
| `Lossy.dfy`, `Verify.dfy`, `Conflicts.dfy` | lossy decoding, manifest and snapshot verification, detached signatures, conflicting digests |
| `Build.dfy`, `Published.dfy`, `Accepted.dfy` | the builder, what its output decodes to, and exactly when a verifier accepts it |
| `Wire.dfy`, `Rules.dfy`, `Tables.dfy`, `Clock.dfy` | the wire form key by key, the rules of every field, the encodings byte by byte and the calendar, all by literals |
| `Contents.dfy`, `Verdicts.dfy`, `Publication.dfy`, `Commands.dfy` | canonical bytes and signed documents, every verdict, every build and every command, each in full, stated without the functions that compute it |
| `ChainLogs.dfy`, `ClientRuns.dfy` | logs of acceptances, and the client as an object that refreshes and retains |
| `Protocol.dfy`, `Walk.dfy` | an honest publisher and a client in any interleaving; walking the chain |
| `Files.dfy`, `Keeping.dfy`, `Publisher.dfy` | the file store, the four ordered writes of `build-snapshot`, stops between them, and what is kept |
| `Respelling.dfy` | what a client makes of another spelling of what it accepted |
| `Release.dfy` | the command, stopped anywhere, interleaved with a client that fetches the latest file |
| `Counterexamples.dfy` | inputs at which the builder and the command do not do what is expected of them |

Byte strings are Dafny strings whose characters stand for bytes; a character above 0xFF is never valid text.
SHA-256, Ed25519 and the URI rules are fields of one value, `Platform`. They are given functions, constrained
only by the sizes of their outputs and by the law that a signature verifies under its own key. No digest is
assumed to be free of collisions in general: a theorem that needs it names the byte strings concerned.

Loops and updates of the program are methods with loops: the duplicate-key scan, the removal of fields, the
entry and descriptor loops, conflict detection, the builder, the writes. Each is proved equal to a function,
and the properties are lemmas about that function. A client and a file store are objects.

The specification functions follow the code branch by branch, so a slip in one of them would be a slip in the
other. `Wire.dfy`, `Rules.dfy`, `Verdicts.dfy`, `Publication.dfy` and `Commands.dfy` therefore say a second time
what is accepted, refused and published, over the document's own keys: with keys, words, prefixes and bounds
written as literals, with indexes instead of searches, and without the functions that decode, check, search,
compare or build. What they still name is the reader, the signing bytes, timestamps, and the text encodings; what
those are is said in `Grammar.dfy`, `Contents.dfy`, `Clock.dfy` and `Tables.dfy`. Both are proved to agree for
all inputs, faults and their order included.

Six things that one would expect of the code and that it does not do, each with an input and the exact condition:

* The builder's comment promises that it emits no entry that a verifier would skip. It checks neither the seat
  type nor the dates. `BuilderEmitsSkippedEntry` gives such an entry, and `ResolvedSurvives` says exactly when
  an emitted entry is kept, by the fields of the config entry.
* The builder adds one to the previous sequence without a check. On a previous sequence of 2^64 - 1 (a release
  build wraps) and on the reserved 0 it still publishes, and every verifier refuses the result:
  `UnchainableBuild`. `BuiltChainShape` says that those are the only two.
* A retention sibling and its signature file are meant never to be overwritten, but the latest file is written
  without a check. A run whose `--out` has the name of a sibling of another catalog or sequence destroys that
  sibling; one whose `--out` has the name of a sibling's signature file destroys that file. `SiblingDestroyed` and
  `SignatureDestroyed` are two runs each, from an empty store. `SparesExactly` says exactly when a run spares a
  sibling, and when it spares the pair, in terms of names and numbers known before the run; `SiblingsNeverChange`
  is the property over any later runs that meet that condition.
* The latest file and its signature file are two writes. A stop between them leaves the new snapshot beside the old
  signature file, or beside none: `PairTorn`. `StopTearsPair` says what one such stop leaves, and `LatestPairExact`
  exactly when the two agree after any runs, however many were stopped there.
* The latest file should only move forward, but a run that is not on top of it can move it back. A first run that is
  repeated later builds the same bytes and completes: `LatestMovesBack`. `MovesBackExactly` says exactly which runs move it back.
* No accusation is to be reachable for bytes that do not carry the operator's signature. The signature covers the
  canonical content, and the comparison takes the digest of the exact bytes, which need not be canonical. So one space after the
  published bytes turns a refresh into a fork: `SpacedForks`, and `HonestForked` for an honest chain.
  `RespelledVerdict` and `RespellingAccuses` say exactly when another spelling of the retained snapshot does that.

The theorems about a whole store (`StoreUnderCrashes`, `CompleteChain`, those of `Release.dfy`) are for latest files
that are named neither like a sibling nor like a signature file. Those about an honest publisher are about its exact
bytes.

## Model

| member | source | states |
|---|---|---|
| Grammar.ReadExact | src/canonical.rs:96-101 | the reader accepts exactly the documents of the RFC 8259 grammar (numbers being integers in range), in every spelling, each as the tree it denotes |
| Grammar.CanonicalPrints | src/canonical.rs:14-25 | the printer writes the one compact spelling with the pinned escapes: two-character forms, lowercase `\u00xx`, nothing else escaped |
| Grammar.ReadPrinted | src/canonical.rs:14-25 | reading the printed form of any well-formed tree gives the tree back |
| Grammar.PrintInjective | src/canonical.rs:14-25 | different trees never print the same |
| Tables.Utf8Exact | src/canonical.rs:96-101 | text is valid exactly when it is a sequence of Unicode scalar values, each in its shortest form |
| Objects.OneReading | src/canonical.rs:27-29 | without repeated keys, first-key-wins and last-key-wins decoding give the same tree |
| Objects.NormalExact | src/canonical.rs:14-15 | documents without repeated keys decode to the same tree exactly when they are the same up to the order of members at every depth |
| Objects.Shuffled | src/canonical.rs:14-15 | any rearrangement of the members of an object is the same up to order, so that notion leaves none out |
| Canonical.ScanValue | src/canonical.rs:36-96 | the streaming scan of one value goes on exactly where the reader would, unless some object inside repeats a key |
| Canonical.ScanMembers | src/canonical.rs:80-92 | the scan of an object refuses exactly the unreadable ones and those that repeat a key, here or deeper |
| Canonical.RejectDuplicateKeys | src/canonical.rs:36-102 | the scan accepts exactly the well-formed documents in which no object at any depth repeats a key |
| Canonical.ComputeCanonicalBytes | src/canonical.rs:105-116 | scan, parse, removal loop and printing compute the canonical bytes of the specification |
| Canonical.ContentValue | src/canonical.rs:14-22 | canonical content is UTF-8 text with strictly ascending keys in every object |
| Canonical.CanonicalBytesCharacteriseContent | src/canonical.rs:105-116 | canonical bytes are equal exactly when the content without the omitted fields is equal |
| Canonical.CanonicalIdempotent | src/canonical.rs:124-130 | canonicalising canonical bytes changes nothing |
| Canonical.SpellingIrrelevant | tests/conformance.rs:1213-1218 | white space and escape spelling never change the signing bytes |
| Canonical.OrderIrrelevant | tests/conformance.rs:1213-1218 | nor does key order at any depth: documents that are the same up to it have the same canonical and signing bytes |
| Canonical.CanonicalBytesExact | src/canonical.rs:105-116 | objects have equal canonical bytes exactly when they are the same up to the order of members, at every depth |
| Canonical.SigningBytesCharacteriseMembers | tests/conformance.rs:1194-1211 | signing bytes agree exactly when all top-level members but `signature` agree; a nested `signature` counts |
| Contents.CanonicalExact | src/canonical.rs:105-116 | exactly the objects that repeat no key have canonical bytes: the compact spelling, keys ascending at every depth, of the members that are not omitted |
| Tables.LessExact | src/canonical.rs:14-25 | keys are ordered by their bytes: at the first difference the smaller byte, or the end, comes first |
| Signing.OperatorIdExact | src/types.rs:142-159 | operator ids and 32-byte public keys are in one-to-one correspondence, lowercase hex only |
| Tables.HexExact | src/keys.rs:27-29 | every byte is two lowercase hex digits, the high one first |
| Rules.SignedExact | src/keys.rs:49-68 | a document is signed by its operator exactly when the id spells some 32-byte key, the signature is one of the two spellings of some 64 bytes, and the key verifies them over the signing bytes |
| Signing.SignatureSpellings | src/keys.rs:48-58 | exactly two texts decode to a 64-byte signature: padded and unpadded, with canonical trailing bits |
| Signing.SignInto | src/sign.rs:16-26 | the signer computes the signed document of the specification |
| Signing.SignDocumentKeepsContent | src/sign.rs:1-4 | signing keeps the signed content and its signing bytes, and its output is already canonical |
| Signing.SignDocumentFixedPoint | src/sign.rs:13-26 | signing depends only on signed content and key, and signing twice changes nothing |
| Contents.SignDocumentExact | src/sign.rs:13-26 | exactly the objects that repeat no key can be signed; the result is the compact spelling of their members but for `signature`, with the padded signature over the canonical bytes of those members |
| Contents.DetachedSignatureExact | src/sign.rs:30-38 | the embedded signature is the text that the last member named `signature` holds |
| Signing.PublishedVerifies | src/keys.rs:26-67 | the embedded signature verifies under the key that the operator id names |
| Timestamps.ParseFormatted | src/types.rs:289-303 | every formatted instant reads back as its whole second, over the years 0000 to 9999 |
| Clock.ParseExact | src/types.rs:289-297 | exactly which texts read as an instant, and as which: field by field, with leap seconds and nine digits of a fraction |
| Clock.FormatExact | src/types.rs:298-303 | the text that is written says the date and time of the instant, cut to the second, in UTC |
| Clock.DayNumberExact | src/types.rs:289-303 | days are numbered one by one through the Gregorian calendar |
| Documents.EntryRoundTrip | src/types.rs:81-104 | a typed entry survives encoding and strict decoding |
| Documents.SnapshotRoundTrip | src/types.rs:61-76 | a typed snapshot survives encoding and strict decoding |
| Wire.SnapshotExact | src/types.rs:60-76 | a document decodes to a snapshot exactly when it holds each of its fields under that field's own key, each of its own kind |
| Wire.ManifestExact | src/types.rs:24-40 | the same for a provider manifest |
| Wire.DescriptorExact | src/types.rs:42-57 | the same for a catalog descriptor |
| Wire.EntryExact | src/types.rs:78-104 | the same for an entry, with the defaults of `profiles` and `evidence` |
| Wire.ReferenceExact | src/types.rs:118-123 | the same for a manifest reference |
| Wire.StatusExact | src/types.rs:106-112 | the same for the status of an entry, which may be absent or null |
| Lossy.Partitioned | src/verify.rs:498-505 | every index is kept or skipped, none is both, and the counts add up |
| Lossy.KeptExact | src/verify.rs:498-505 | what is kept is the decoding at each kept index, in order |
| Lossy.IndexesExact | src/verify.rs:498-505 | the skipped indexes are exactly the undecodable ones, in increasing order |
| Verify.SortDescriptors | src/verify.rs:88-119 | the descriptor loop sorts into public, audience-skipped and undecodable, or finds a repeated catalog id |
| Verify.DescriptorsPartitioned | src/verify.rs:93-119 | the three classes of descriptors partition the indexes |
| Rules.DeclarableExact | src/verify.rs:137-168 | a descriptor decodes exactly when it holds its fields under their keys and each has the form that the profile writes down |
| Verify.VerifyManifest | src/verify.rs:41-134 | manifest verification computes the verdict of the specification, faults in order |
| Verdicts.ManifestVerdictExact | src/verify.rs:41-134 | exactly when a manifest is accepted, with which descriptors in which class, and otherwise which fault: the first rule that fails, `Expired` exactly when the head passes and `validUntil` is not after now |
| Verify.VerifiedManifestCatalogs | src/verify.rs:98-123 | a verified manifest names each catalog once over both decoded classes, has decoded one, and loses none |
| Verify.DecodeEntries | src/verify.rs:498-505 | the entry loop keeps the decodable entries in order and records every other index |
| Verify.UniqueComponents | src/verify.rs:506-514 | the loop over the survivors finds whether their components are distinct |
| Rules.ListableExact | src/verify.rs:526-573 | an entry decodes exactly when it holds its fields under their keys and each has the form that the profile writes down |
| Verify.VerifySnapshot | src/verify.rs:283-524 | snapshot verification computes the verdict of the specification |
| Verdicts.VerdictExact | src/verify.rs:283-524 | exactly when a snapshot is accepted, with which entries, outcome and transition flag, and otherwise which fault: the first rule that fails, with the policy of the first descriptor of the catalog |
| Verdicts.AcceptanceRetains | src/verify.rs:217-238 | an accepted snapshot is of a declared catalog and cites its policy or the retained one; the state after it, in full |
| Verdicts.RetainedStateExact | src/verify.rs:199-215 | state is derived from exactly the snapshot documents that repeat no key, and is what they say |
| Verify.UnsignedSnapshot | src/verify.rs:310-326 | what the operator did not sign is refused for its structure, its provider or its signature, and for nothing else |
| Verify.UnsignedManifest | src/verify.rs:70-80 | an unsigned manifest is refused for its structure or its signature: never as expired, repeating an id or empty |
| Verify.AccusationsAreSigned | src/verify.rs:310-326 | a rollback, fork, jump, freshness or expiry verdict is only ever reached for bytes whose signed content carries a signature by the operator |
| Respelling.RespelledVerdict | src/verify.rs:436-453 | any other spelling of an accepted snapshot, while fresh, is a no-op refresh if its bytes have the retained digest, and otherwise a fork |
| Respelling.RespellingAccuses | src/verify.rs:310-319 | collisions apart, the signed content served again is accepted exactly when the bytes are those retained, and a fork exactly when not |
| Respelling.SpacedForks | src/verify.rs:310-319 | accepted bytes with one space after them are a fork, although the signature verifies |
| Respelling.HonestForked | src/verify.rs:310-319 | the same for any publication of an honest chain |
| Verify.AcceptedOneReading | src/verify.rs:294-326 | an accepted snapshot repeats no key, so its typed parse and its tree agree whichever key wins |
| Verify.ManifestOneReading | src/verify.rs:47-80 | a verified manifest repeats no key, so its typed parse and its tree agree whichever key wins |
| Verify.PublishedSigAgrees | src/verify.rs:601-639 | the detached signature of a signed document agrees with it, after any run of CR and LF |
| Verify.DetachedExact | src/verify.rs:595-639 | for every document and file: they agree exactly when some 64 bytes are the embedded signature and, in one of its two spellings, the trimmed text of the file; otherwise a mismatch, of the snapshot or of the manifest as asked |
| Conflicts.ConflictingDigests | src/verify.rs:691-709 | the result lists, sorted and once, exactly the components bound to at least two digests |
| Conflicts.SameBindingsSameConflicts | src/verify.rs:685-690 | the result depends on nothing but the bindings |
| Conflicts.PermutationIrrelevant | src/verify.rs:691-709 | reordering entries or redistributing them over the sets changes no conflict |
| Conflicts.SourceConflicts | src/verify.rs:677-683 | exactly the components on which two sources disagree, in either order of the sources |
| Conflicts.CrossCatalogEquivocation | src/verify.rs:662-675 | different providers are told apart, and a reported list is never empty and is exact |
| Conflicts.AcceptedConflicts | src/verify.rs:642-675 | among accepted snapshots, a reported component is listed with two digests in two different snapshots of one provider |
| Conflicts.VerifiedConflictFree | src/verify.rs:662-675 | the check of any number of copies of one accepted snapshot reports no conflict |
| ChainLogs.SequenceAccounting | src/verify.rs:438-488 | sequences never decrease, and grow by successors and by each jump's missed publications and one more |
| ChainLogs.OneDigestPerSequence | src/verify.rs:444-453 | one sequence is never accepted with two digests |
| ChainLogs.GraceRetained | src/verify.rs:217-238 | an open policy grace is the one retained at the start, and every acceptance so far was a transition |
| ChainLogs.HistoryAgreement | src/verify.rs:436-465 | two logs that end on one digest agree on the bytes of every sequence since both were jump-free |
| ClientRuns.Client.constructor | src/verify.rs:170-186 | a client starts with the given retained state and an empty log |
| ClientRuns.Client.Refresh | src/verify.rs:223-238 | a client retains exactly what it accepts, and nothing on a refusal |
| ClientRuns.RunLinked | src/verify.rs:223-238 | every run is a log of acceptances, each justified by the state that the ones before it left |
| ClientRuns.RunAccounting | src/verify.rs:438-488 | from any start: final sequence = the one retained at the start (or first accepted) + successors + (missed + 1) of each jump; the digest is that of the last accepted bytes, and unchanged while the sequence is |
| ClientRuns.RunSafety | src/verify.rs:438-488 | in every run no sequence is accepted below an earlier one or with another digest, the one retained at the start included |
| ClientRuns.GraceCloses | src/verify.rs:400-419 | accepted transitions form a prefix of the run and all cite the policy retained at the start |
| ClientRuns.RunsAgree | src/verify.rs:436-465 | two client runs that end on one digest accepted identical bytes wherever neither jumped since |
| Build.ResolvedFromConfig | src/build.rs:106-166 | a resolved entry is the one the config writes, but that with a manifest file the digest is that of the bytes of the file, whatever digest the config gives |
| Build.Resolve | src/build.rs:106-166 | the in-place work on an entry computes the resolved entry of the specification, which is the one the config writes with the digest of the named file |
| Build.ResolveAll | src/build.rs:70-73 | the entry loop resolves every entry, or stops at the first error |
| Publication.ResolvesExact | src/build.rs:106-166 | to which entries a config entry resolves, by its keys and the named file |
| Publication.UnresolvedExact | src/build.rs:106-166 | and with which error it fails otherwise |
| Publication.EntryWritten | src/build.rs:162-166 | a resolved entry is written with every field under its own key |
| Build.BuildSnapshot | src/build.rs:36-102 | the builder computes the specified snapshot, with its errors in order |
| Publication.ChainExact | src/build.rs:50-68 | a build starts at 1, or continues a snapshot of its own catalog that repeats no key by one and by the digest of its bytes; any other previous bytes are refused |
| Publication.BuildExact | src/build.rs:36-102 | a build in full: the first rule that fails decides the error, and otherwise the published object has exactly the keys and values that config, previous bytes, files and clock say, and a signature over its own signing bytes |
| Build.ResolvedSurvives | src/build.rs:106-166 | a resolved entry decodes to the same typed entry, and is kept exactly when the config entry has a seat type and valid dates |
| Build.ResolveFixedPoint | src/build.rs:162-166 | resolving what was resolved changes nothing |
| Published.BuildSucceeds | src/build.rs:36-102 | a build succeeds exactly when config, previous bytes, entries and both times are in order; signing never fails |
| Published.BuiltReadsBack | src/build.rs:75-101 | the published bytes decode to the drafted snapshot with a signature that verifies |
| Published.BuiltChainShape | src/build.rs:50-68 | a build obeys the chain rules exactly when it starts a chain or continues a sequence from 1 to 2^64 - 2 |
| Counterexamples.UnchainableBuild | src/build.rs:50-68 | on a previous sequence of 0 or 2^64 - 1 the build succeeds, with sequence 1 or 0, and every verifier refuses it |
| Accepted.BuiltWindow | src/build.rs:75-84 | the published times parse to the whole second of the generation and to `expiryDays` days later, and the bytes are fresh exactly from ten minutes before to ten minutes after |
| Accepted.BuiltAccepted | src/verify.rs:283-524 | a declared build is accepted exactly when within the size bound, allowed by what is retained, in its window, of at most 512 entries and with distinct components; the verdict is given in full |
| Accepted.BuilderEmitsSkippedEntry | src/build.rs:147-149 | the builder emits an entry that every verifier skips |
| Protocol.PublishExtends | src/build.rs:50-68 | building on the latest publication extends the chain by one link |
| Protocol.HonestComparison | src/verify.rs:436-488 | a client of an honest chain finds exactly the outcome owed, with the exact number missed |
| Protocol.HonestRefresh | src/verify.rs:421-488 | a refresh from an honest chain is never accused and leaves the client on the publication served |
| Protocol.HonestPublisherNeverAccused | src/verify.rs:421-488 | in every interleaving of publications and refreshes no refresh ends in an accusation |
| Walk.PostsChained | src/build.rs:50-68 | builds, each on the exact bytes before it, are numbered from 1 and linked by digest |
| Walk.ServedAccepted | src/verify.rs:421-488 | any unexpired publication not older than the retained one is accepted with the outcome owed |
| Walk.RetainedFromBytes | src/verify.rs:199-215 | state derived from a publication's bytes is the state of having accepted it |
| Walk.ChainWalk | src/verify.rs:457-465 | from any publication the later ones are accepted one by one, each as the successor |
| Files.SiblingNameInjective | src/main.rs:202-203 | a sibling's name determines its catalog and its sequence |
| Files.FileSystem.WriteImmutable | src/main.rs:315-331 | refuses exactly when the file exists with other bytes, and then changes nothing |
| Keeping.SiblingKeptExact | src/main.rs:192-207 | the four writes keep a sibling exactly unless they reach a latest file of its name for another publication |
| Publisher.WriteAll | src/main.rs:202-207 | the four writes in order, stopped anywhere, leave the specified files |
| Publisher.BuildSnapshotCommand | src/main.rs:167-217 | the command leaves the specified files wherever it is stopped, and reports whether it completed |
| Commands.CommandExact | src/main.rs:167-217 | a command that can read and build, stopped anywhere: what it publishes, its signature line, and the files it leaves, write by write, with the refusals of the two immutable ones |
| Commands.NothingWritten | src/main.rs:167-189 | a command that cannot read or build changes no file |
| Publisher.StoreUnderCrashes | src/main.rs:192-207 | after any stopped runs siblings are what their names say, a sibling's signature file verifies against it, latest files are sibling copies |
| Publisher.LatestPairExact | src/main.rs:206-207 | after any stopped runs the latest file and its signature file agree exactly when the last run to write the signature file published a snapshot with the same embedded signature |
| Publisher.LatestPairAgrees | src/main.rs:206-207 | they agree whenever the last run that replaced the one replaced the other |
| Publisher.StopTearsPair | src/main.rs:206-207 | on any store, a stop between the two leaves the signature file as it was, which agrees exactly when it holds the signature that the new snapshot embeds |
| Counterexamples.PairTorn | src/main.rs:206-207 | one stopped run leaves a latest file without a signature file, and a second one sequence 2 beside the signature file of sequence 1 |
| Publisher.SparesExactly | src/main.rs:192-207 | exactly when a run spares a sibling, and a sibling with its signature file, by the names and numbers given to it |
| Publisher.SiblingsNeverChange | src/main.rs:196-201 | once written a sibling or its signature file never changes, unless a later run takes its name for the latest file of another publication |
| Counterexamples.SiblingDestroyed | src/main.rs:202-206 | two runs from an empty store after which the sibling of sequence 1 holds sequence 2 |
| Counterexamples.SignatureDestroyed | src/main.rs:202-206 | two runs from an empty store after which a sibling's signature file holds a snapshot |
| Publisher.RefusedChangesNothing | src/main.rs:197-201 | a run completes exactly when its sibling is absent or byte-identical, and a refused run changes nothing |
| Publisher.CompleteChain | src/build.rs:50-102 | when every run for a latest file passes it, what it has held is a linked history, siblings 1 to N hold it, and its last is the latest file; runs for others may come between |
| Publisher.HistoryGrows | src/main.rs:192-207 | an earlier history is a prefix of every later one |
| Publisher.MovesBackExactly | src/main.rs:192-207 | a run moves the latest file back exactly when it builds a smaller sequence whose sibling does not refuse it; then the bytes are those published and the store serves the chain up to there |
| Counterexamples.LatestMovesBack | src/main.rs:192-207 | the first run, repeated after the second, completes and puts sequence 1 back |
| Publisher.SiblingsWalk | src/verify.rs:457-465 | a client that retains any sibling accepts the later siblings one by one as successors |
| Release.StoppedPublisherNeverAccused | src/verify.rs:421-488 | in every interleaving of commands stopped anywhere and fetches of the latest file, no fetch is accused and each acceptance reports the outcome owed |
| Release.EveryFetchAccepted | src/verify.rs:283-524 | in such an interleaving, when every fetch is declared, in its window and within bounds, each is accepted with the outcome owed, and the client retains what it was last served |

## Left out

- Floating-point numbers, exponents, `-0` and integers outside the i64 and u64 ranges in JSON: the reader refuses them.
- The recursion limit of the JSON library: nesting of any depth is read.
- URL parsing and the host rules of `validate_uri`: one given predicate, shared by builder and verifier.
- SHA-256, Ed25519, key generation, fingerprints and seed files: given functions.
- Error texts and error codes: faults are kinds, one for each family of rejections.
- `verify_destination`: one comparison and one bound.
- Command-line parsing, printing, the other subcommands, file permissions, and reading the config file: the config arrives parsed.
- Partly written files: each write is a single step, and a run may stop between any two.
- Paths without a file name: an output path is a directory and a name.
- Timestamps outside the years 0000 to 9999, and sums of clock and skew beyond what the `time` crate represents.
- The fetching side of a client (retries, caching, when to walk): a run is any sequence of fetched bytes, manifests and clocks.
- The deployment scripts, and the byte fixtures beyond the escape table and the key order.
- Timestamps that separate date and time by another character than `T` or `t`: refused. That is assumed; the `time` crate is not part of this model.
- Protocol.HonestPublisherNeverAccused: the history is free of digest collisions and has fewer publications than there are 64-bit sequences; without these the statement is false.
- Release.StoppedPublisherNeverAccused: the same two hypotheses, the discipline of Publisher.CompleteChain, and the exact bytes of the latest file.
- Release.EveryFetchAccepted: the same, and the conditions of Walk.ServedAccepted at every fetch.
- ClientRuns.RunsAgree: the bytes seen in the two runs are free of digest collisions.
- Walk.ChainWalk: the same collision hypothesis, one declared catalog, and each publication fetched within its window and the verifier's bounds.
- Publisher.CompleteChain: every run for the latest file is on top of it; Publisher.MovesBackExactly says what one that is not does.
